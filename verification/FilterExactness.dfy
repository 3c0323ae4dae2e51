/** Exactly which lists of filters compile to the conjunction of their filters. */
module FilterExactness {
  import opened Wrappers
  import opened Filters

  predicate AllKnown(fs: seq<Filter>) {
    forall i :: 0 <= i < |fs| ==> KnownTypes(fs[i])
  }

  /**
  Behind each "is" link on the path the row has at most one record, as the schema has it. Other links may
  hold any number.
  */
  predicate SingleIs(p: seq<string>, row: Row)
    decreases |p|
  {
    |p| > 2 && p[0] in row.links ==>
      && (p[1] == "is" ==> |row.links[p[0]]| <= 1)
      && forall i :: 0 <= i < |row.links[p[0]]| ==> SingleIs(p[2..], row.links[p[0]][i])
  }

  predicate AllSingleIs(fs: seq<Filter>, row: Row) {
    forall i :: 0 <= i < |fs| ==> SingleIs(Target(fs[i]), row)
  }

  /** Two winning filters both come through `pre`, which ends in a "some" step. */
  predicate ShareSomeAt(fs: seq<Filter>, i: nat, j: nat, pre: seq<string>) {
    && i < |fs| && j < |fs| && i != j && Wins(fs, i) && Wins(fs, j)
    && |pre| >= 2 && |pre| % 2 == 0 && pre[|pre| - 1] == "some" && Through(fs[i], pre) && Through(fs[j], pre)
  }

  ghost predicate SharesSome(fs: seq<Filter>) {
    exists i, j, pre :: ShareSomeAt(fs, i, j, pre)
  }

  /** Filters with one target ask for one operand, so none replaces another's. */
  predicate SameOperands(fs: seq<Filter>, toNumber: Value -> Value) {
    forall i, j :: 0 <= i < |fs| && 0 <= j < |fs| && Target(fs[i]) == Target(fs[j]) ==>
        Operand(fs[i], toNumber) == Operand(fs[j], toNumber)
  }

  ghost predicate AllPass(fs: seq<Filter>, toNumber: Value -> Value, row: Row, holds: Test) {
    forall i :: 0 <= i < |fs| ==> FilterAccepts(fs[i], toNumber, row, holds)
  }

  // ----- Filters that share no "some" step

  lemma {:induction false} SingleClear(fs: seq<Filter>, i: nat, pre: seq<string>, row: Row)
    requires AllKnown(fs) && !SharesSome(fs) && i < |fs| && Wins(fs, i) && pre <= Target(fs[i]) && |pre| % 2 == 0
    requires ProperPath(Target(fs[i])[|pre|..]) && SingleIs(Target(fs[i])[|pre|..], row)
    ensures Clear(fs, i, pre, row)
    decreases 6 - |pre|
  {
    var q := Target(fs[i])[|pre|..];
    if |q| > 2 && q[0] in row.links {
      var step := pre + q[..2];
      assert step <= Target(fs[i]) && Target(fs[i])[|step|..] == q[2..];
      if q[1] == "some" {
        forall j | 0 <= j < |fs| && j != i && Wins(fs, j) ensures !Through(fs[j], step) {
          assert !ShareSomeAt(fs, i, j, step);
        }
      }
      forall n | 0 <= n < |row.links[q[0]]| ensures Clear(fs, i, step, row.links[q[0]][n]) {
        SingleClear(fs, i, step, row.links[q[0]][n]);
      }
    }
  }

  /** Some filter with the same target wins. */
  lemma WinnerFor(fs: seq<Filter>, i: nat) returns (w: nat)
    requires i < |fs|
    ensures i <= w < |fs| && Wins(fs, w) && Target(fs[w]) == Target(fs[i])
    decreases |fs| - i
  {
    if j :| i < j < |fs| && Target(fs[j]) == Target(fs[i]) {
      w := WinnerFor(fs, j);
    } else {
      w := i;
    }
  }

  /** If no operand is lost, the winners pass exactly when all filters do. */
  lemma WinnersAreAll(fs: seq<Filter>, toNumber: Value -> Value, row: Row, holds: Test)
    requires SameOperands(fs, toNumber)
    ensures WinnersPass(fs, toNumber, row, holds) <==> AllPass(fs, toNumber, row, holds)
  {
    if WinnersPass(fs, toNumber, row, holds) {
      forall i | 0 <= i < |fs| ensures FilterAccepts(fs[i], toNumber, row, holds) {
        var w := WinnerFor(fs, i);
        assert FilterAccepts(fs[w], toNumber, row, holds);
      }
    }
  }

  /**
  Filters that share no "some" step and lose no operand compile to their conjunction, however many records
  the links hold.
  */
  lemma ConjunctionIfApart(fs: seq<Filter>, toNumber: Value -> Value, row: Row, holds: Test)
    requires AllKnown(fs) && !SharesSome(fs) && AllSingleIs(fs, row)
    ensures Accepts(Where(fs, toNumber), row, holds) <==> WinnersPass(fs, toNumber, row, holds)
    ensures SameOperands(fs, toNumber) ==> (Accepts(Where(fs, toNumber), row, holds) <==>
            AllPass(fs, toNumber, row, holds))
  {
    forall i | 0 <= i < |fs| && Wins(fs, i) ensures Clear(fs, i, [], row) {
      assert Target(fs[i])[0..] == Target(fs[i]);
      TargetProper(fs[i]);
      SingleClear(fs, i, [], row);
    }
    ClearExact(fs, toNumber, row, holds);
    if SameOperands(fs, toNumber) {
      WinnersAreAll(fs, toNumber, row, holds);
    }
  }

  // ----- Rows that tell filters apart

  /** The paths do not use one link with two relation types. */
  predicate SameTypes(p: seq<string>, q: seq<string>)
    decreases |p|
  {
    |p| > 2 && |q| > 2 && p[0] == q[0] ==> p[1] == q[1] && SameTypes(p[2..], q[2..])
  }

  /** Each link is asked about with one relation type. */
  predicate UniformTypes(fs: seq<Filter>) {
    forall i, j :: 0 <= i < |fs| && 0 <= j < |fs| ==> SameTypes(Target(fs[i]), Target(fs[j]))
  }

  function Names(fs: seq<Filter>): set<string> {
    set i | 0 <= i < |fs| :: ActualField(fs[i])
  }

  function Relations(fs: seq<Filter>): set<string> {
    (set i | 0 <= i < |fs| :: fs[i].relation) + (set i | 0 <= i < |fs| :: fs[i].relation2)
  }

  predicate Named(fs: seq<Filter>, p: seq<string>)
    decreases |p|
  {
    && |p| >= 2
    && if |p| == 2 then p[0] in Names(fs) else p[0] in Relations(fs) && Named(fs, p[2..])
  }

  lemma TargetNamed(fs: seq<Filter>, i: nat)
    requires i < |fs| && KnownTypes(fs[i])
    ensures Named(fs, Target(fs[i]))
  {
    var f := fs[i];
    var p := Target(f);
    var r := [ActualField(f), Operator(f)];
    assert Named(fs, r);
    if |p| == 4 {
      assert p[2..] == r;
    } else if |p| == 6 {
      var r2 := [f.relation2, f.relationType2] + r;
      assert r2[2..] == r && Named(fs, r2) && p[2..] == r2;
    }
  }

  const PLAIN: Value := Number(0)

  /** A row that has every field, and behind every link one more such row. */
  function Plain(fs: seq<Filter>, depth: nat): Row {
    Row(map f | f in Names(fs) :: PLAIN, if depth == 0 then map[]
        else map k | k in Relations(fs) :: [Plain(fs, depth - 1)])
  }

  /** The same with one field marked, the one that the path leads to. */
  function Marked(fs: seq<Filter>, depth: nat, q: seq<string>, mark: Value): Row {
    var row := Plain(fs, depth);
    if |q| < 2 then row
    else if |q| == 2 then row.(fields := row.fields[q[0] := mark])
    else if depth == 0 then row
    else row.(links := row.links[q[0] := [Marked(fs, depth - 1, q[2..], mark)]])
  }

  predicate Short(p: seq<string>, depth: nat) {
    2 <= |p| <= 2 * depth + 2 && |p| % 2 == 0
  }

  /** Behind a link to one record every relation type asks for the same. */
  lemma OneLink(p: seq<string>, v: Value, row: Row, rec: Row, holds: Test)
    requires |p| > 2 && p[0] in row.links && row.links[p[0]] == [rec]
    ensures PathAccepts(p, v, row, holds) <==> PathAccepts(p[2..], v, rec, holds)
  {
    assert row.links[p[0]][0] == rec;
  }

  lemma {:induction false} PlainAccepts(fs: seq<Filter>, depth: nat, p: seq<string>, v: Value, holds: Test)
    requires Named(fs, p) && Short(p, depth) && forall op, v :: holds(op, v, PLAIN)
    ensures PathAccepts(p, v, Plain(fs, depth), holds)
    decreases depth
  {
    if |p| > 2 {
      PlainAccepts(fs, depth - 1, p[2..], v, holds);
      OneLink(p, v, Plain(fs, depth), Plain(fs, depth - 1), holds);
    }
  }

  /** The path to the mark meets the mark. */
  lemma {:induction false} MarkedAt(fs: seq<Filter>, depth: nat, q: seq<string>, v: Value, mark: Value, holds: Test)
    requires Short(q, depth)
    ensures PathAccepts(q, v, Marked(fs, depth, q, mark), holds) <==> holds(q[|q| - 1], v, mark)
    decreases depth
  {
    if |q| > 2 {
      MarkedAt(fs, depth - 1, q[2..], v, mark, holds);
      OneLink(q, v, Marked(fs, depth, q, mark), Marked(fs, depth - 1, q[2..], mark), holds);
    }
  }

  /** The test accepts plain values, and marked ones except by one operator. */
  ghost predicate Tells(holds: Test, mark: Value, op: string) {
    && (forall o, v :: holds(o, v, PLAIN))
    && (forall o, v :: o != op ==> holds(o, v, mark))
  }

  lemma FieldElsewhere(fs: seq<Filter>, depth: nat, q: seq<string>, p: seq<string>, v: Value, mark: Value, holds: Test)
    requires Short(q, depth) && |p| == 2 && Named(fs, p) && p != q && Tells(holds, mark, q[|q| - 1])
    ensures PathAccepts(p, v, Marked(fs, depth, q, mark), holds)
  {
    if |q| == 2 && p[0] == q[0] {
      assert p[1] != q[1];
    } else {
      assert Marked(fs, depth, q, mark).fields[p[0]] == PLAIN;
    }
  }

  lemma LinkElsewhere(fs: seq<Filter>, depth: nat, q: seq<string>, p: seq<string>, v: Value, mark: Value, holds: Test)
    requires Short(q, depth) && Short(p, depth) && |p| > 2 && Named(fs, p) && (|q| == 2 || p[0] != q[0])
             && forall op, v :: holds(op, v, PLAIN)
    ensures PathAccepts(p, v, Marked(fs, depth, q, mark), holds)
  {
    PlainAccepts(fs, depth - 1, p[2..], v, holds);
    OneLink(p, v, Marked(fs, depth, q, mark), Plain(fs, depth - 1), holds);
  }

  lemma TailsDiffer(p: seq<string>, q: seq<string>)
    requires |p| > 2 && |q| > 2 && p != q && p[..2] == q[..2]
    ensures p[2..] != q[2..]
  {
    assert p == p[..2] + p[2..] && q == q[..2] + q[2..];
  }

  /** Any other path is passed, if the test refuses the mark by the operator of that one alone. */
  lemma {:induction false} MarkedElsewhere(
      fs: seq<Filter>, depth: nat, q: seq<string>, p: seq<string>, v: Value, mark: Value, holds: Test)
    requires Short(q, depth) && Short(p, depth) && Named(fs, p) && p != q && SameTypes(p, q)
             && Tells(holds, mark, q[|q| - 1])
    ensures PathAccepts(p, v, Marked(fs, depth, q, mark), holds)
    decreases depth
  {
    if |p| == 2 {
      FieldElsewhere(fs, depth, q, p, v, mark, holds);
    } else if |q| > 2 && p[0] == q[0] {
      TailsDiffer(p, q);
      MarkedElsewhere(fs, depth - 1, q[2..], p[2..], v, mark, holds);
      OneLink(p, v, Marked(fs, depth, q, mark), Marked(fs, depth - 1, q[2..], mark), holds);
    } else {
      LinkElsewhere(fs, depth, q, p, v, mark, holds);
    }
  }

  lemma {:induction false} PlainSingle(fs: seq<Filter>, depth: nat, p: seq<string>)
    ensures OneRecord(p, Plain(fs, depth)) && SingleIs(p, Plain(fs, depth))
    decreases |p|
  {
    if |p| > 2 && depth > 0 {
      PlainSingle(fs, depth - 1, p[2..]);
    }
  }

  lemma {:induction false} MarkedSingle(fs: seq<Filter>, depth: nat, q: seq<string>, mark: Value, p: seq<string>)
    ensures OneRecord(p, Marked(fs, depth, q, mark)) && SingleIs(p, Marked(fs, depth, q, mark))
    decreases |p|
  {
    if |p| > 2 && depth > 0 {
      PlainSingle(fs, depth - 1, p[2..]);
      if |q| > 2 {
        MarkedSingle(fs, depth - 1, q[2..], mark, p[2..]);
      }
    }
  }

  // ----- Every filter counts exactly if no operand is lost

  lemma MarkedFilter(fs: seq<Filter>, toNumber: Value -> Value, w: nat, mark: Value, holds: Test, m: nat)
    requires w < |fs| && m < |fs| && KnownTypes(fs[m]) && (Target(fs[m]) == Target(fs[w]) ==> m == w)
    requires SameTypes(Target(fs[m]), Target(fs[w]))
    requires var q := Target(fs[w]); Tells(holds, mark, q[|q| - 1]) && holds(q[|q| - 1], Operand(fs[w], toNumber), mark)
    ensures FilterAccepts(fs[m], toNumber, Marked(fs, 2, Target(fs[w]), mark), holds)
  {
    var p, q := Target(fs[m]), Target(fs[w]);
    if p == q {
      MarkedAt(fs, 2, q, Operand(fs[w], toNumber), mark, holds);
    } else {
      TargetNamed(fs, m);
      MarkedElsewhere(fs, 2, q, p, Operand(fs[m], toNumber), mark, holds);
    }
  }

  /** A marked row passes the tree if the test accepts the mark by the winning operand. */
  lemma MarkedPasses(fs: seq<Filter>, toNumber: Value -> Value, w: nat, mark: Value, holds: Test)
    requires AllKnown(fs) && UniformTypes(fs) && w < |fs| && Wins(fs, w)
    requires var q := Target(fs[w]); Tells(holds, mark, q[|q| - 1]) && holds(q[|q| - 1], Operand(fs[w], toNumber), mark)
    ensures var row := Marked(fs, 2, Target(fs[w]), mark);
            AllSingleIs(fs, row) && Accepts(Where(fs, toNumber), row, holds)
  {
    var row := Marked(fs, 2, Target(fs[w]), mark);
    forall m | 0 <= m < |fs| ensures OneRecord(Target(fs[m]), row) && SingleIs(Target(fs[m]), row) {
      MarkedSingle(fs, 2, Target(fs[w]), mark, Target(fs[m]));
    }
    FiltersExact(fs, toNumber, row, holds);
    forall m | 0 <= m < |fs| && Wins(fs, m) ensures FilterAccepts(fs[m], toNumber, row, holds) {
      MarkedFilter(fs, toNumber, w, mark, holds, m);
    }
  }

  /** The test that accepts a marked value by one operator only with one operand. */
  function OnlyOperand(mark: Value, op: string, kept: Value): Test {
    (o, v, stored) => stored == mark && o == op ==> v == kept
  }

  lemma LostFails(fs: seq<Filter>, toNumber: Value -> Value, q: seq<string>, lost: nat, mark: Value, kept: Value)
    requires lost < |fs| && KnownTypes(fs[lost]) && Target(fs[lost]) == q && Operand(fs[lost], toNumber) != kept
    ensures !AllPass(fs, toNumber, Marked(fs, 2, q, mark), OnlyOperand(mark, q[|q| - 1], kept))
  {
    var row, holds := Marked(fs, 2, q, mark), OnlyOperand(mark, q[|q| - 1], kept);
    MarkedAt(fs, 2, q, Operand(fs[lost], toNumber), mark, holds);
    assert !FilterAccepts(fs[lost], toNumber, row, holds);
  }

  /** The tree and the conjunction of all filters differ on the row. */
  ghost predicate Differs(fs: seq<Filter>, toNumber: Value -> Value, row: Row, holds: Test)
    requires AllKnown(fs)
  {
    AllSingleIs(fs, row) && Accepts(Where(fs, toNumber), row, holds) != AllPass(fs, toNumber, row, holds)
  }

  /** A row that passes the tree and fails a filter whose operand is lost. */
  lemma LostOperand(fs: seq<Filter>, toNumber: Value -> Value, w: nat, lost: nat)
    requires AllKnown(fs) && UniformTypes(fs) && w < |fs| && Wins(fs, w) && lost < |fs|
    requires Target(fs[lost]) == Target(fs[w]) && Operand(fs[lost], toNumber) != Operand(fs[w], toNumber)
    ensures exists row, holds :: Differs(fs, toNumber, row, holds)
  {
    var q, kept := Target(fs[w]), Operand(fs[w], toNumber);
    var mark := Number(1);
    LostFails(fs, toNumber, q, lost, mark, kept);
    MarkedPasses(fs, toNumber, w, mark, OnlyOperand(mark, q[|q| - 1], kept));
    assert Differs(fs, toNumber, Marked(fs, 2, q, mark), OnlyOperand(mark, q[|q| - 1], kept));
  }

  // ----- Filters that share a "some" step

  /**
  A plain row, but behind the path there are two records: one marked where the first tail leads, one where
  the second does.
  */
  function Split(fs: seq<Filter>, depth: nat, path: seq<string>, a: seq<string>, b: seq<string>): Row {
    var row := Plain(fs, depth);
    if |path| < 2 || depth == 0 then row
    else if |path| == 2
        then row.(links := row.links[path[0] := [Marked(fs, depth - 1, a, Number(1)),
            Marked(fs, depth - 1, b, Number(2))]])
    else row.(links := row.links[path[0] := [Split(fs, depth - 1, path[2..], a, b)]])
  }

  /** The test that refuses each mark by one operator. */
  function Refuses(a: seq<string>, b: seq<string>): Test
    requires a != [] && b != []
  {
    (o, v, stored) => !(stored == Number(1) && o == a[|a| - 1]) && !(stored == Number(2) && o == b[|b| - 1])
  }

  lemma RefusesTells(a: seq<string>, b: seq<string>)
    requires a != [] && b != []
    ensures Tells(Refuses(a, b), Number(1), a[|a| - 1]) && Tells(Refuses(a, b), Number(2), b[|b| - 1])
  {
  }

  lemma {:induction false} TypesBehind(path: seq<string>, a: seq<string>, p: seq<string>)
    requires |path| >= 2 && |p| > 2 && a != [] && path[0] == p[0] && SameTypes(p, path + a)
             && (|path| == 2 ==> |a| >= 2)
    ensures p[1] == path[1] && SameTypes(p[2..], path[2..] + a)
  {
    assert (path + a)[2..] == path[2..] + a;
  }

  /** Behind the last step every other path is passed by one of the two records. */
  lemma OneOfTwo(fs: seq<Filter>, depth: nat, a: seq<string>, b: seq<string>, r: seq<string>, v: Value)
    requires Short(a, depth) && Short(b, depth) && Short(r, depth) && a != b && Named(fs, r) && SameTypes(r, a)
             && SameTypes(r, b)
    ensures PathAccepts(r, v, Marked(fs, depth, a, Number(1)), Refuses(a, b))
            || PathAccepts(r, v, Marked(fs, depth, b, Number(2)), Refuses(a, b))
  {
    RefusesTells(a, b);
    if r != a {
      MarkedElsewhere(fs, depth, a, r, v, Number(1), Refuses(a, b));
    } else {
      MarkedElsewhere(fs, depth, b, r, v, Number(2), Refuses(a, b));
    }
  }

  /** A path that does not take the first step of the split one is passed. */
  lemma SplitAside(
      fs: seq<Filter>, depth: nat, path: seq<string>, a: seq<string>, b: seq<string>, p: seq<string>, v: Value,
      holds: Test)
    requires |path| >= 2 && Short(p, depth) && Named(fs, p) && (|p| == 2 || p[0] != path[0])
             && forall op, v :: holds(op, v, PLAIN)
    ensures PathAccepts(p, v, Split(fs, depth, path, a, b), holds)
  {
    if |p| > 2 {
      PlainAccepts(fs, depth - 1, p[2..], v, holds);
      OneLink(p, v, Split(fs, depth, path, a, b), Plain(fs, depth - 1), holds);
    }
  }

  lemma SplitLinks(fs: seq<Filter>, depth: nat, path: seq<string>, a: seq<string>, b: seq<string>)
    requires |path| >= 2 && depth > 0
    ensures var links := Split(fs, depth, path, a, b).links;
            path[0] in links &&
            links[path[0]] == if |path| == 2
                then [Marked(fs, depth - 1, a, Number(1)), Marked(fs, depth - 1, b, Number(2))]
                              else [Split(fs, depth - 1, path[2..], a, b)]
  {
  }

  lemma TwoLinks(p: seq<string>, v: Value, row: Row, x: Row, y: Row, holds: Test)
    requires |p| > 2 && p[1] != "every" && p[0] in row.links && row.links[p[0]] == [x, y]
    requires PathAccepts(p[2..], v, x, holds) || PathAccepts(p[2..], v, y, holds)
    ensures PathAccepts(p, v, row, holds)
  {
    assert row.links[p[0]][0] == x && row.links[p[0]][1] == y;
  }

  lemma SplitLast(
      fs: seq<Filter>, depth: nat, path: seq<string>, a: seq<string>, b: seq<string>, p: seq<string>, v: Value)
    requires |path| == 2 && path[1] == "some" && a != b && depth > 0 && Short(a, depth - 1) && Short(b, depth - 1)
             && Short(p, depth)
    requires |p| > 2 && p[0] == path[0] && p[1] == path[1] && Named(fs, p) && SameTypes(p[2..], a)
             && SameTypes(p[2..], b)
    ensures PathAccepts(p, v, Split(fs, depth, path, a, b), Refuses(a, b))
  {
    SplitLinks(fs, depth, path, a, b);
    OneOfTwo(fs, depth - 1, a, b, p[2..], v);
    TwoLinks(p, v, Split(fs, depth, path, a, b), Marked(fs, depth - 1, a, Number(1)),
        Marked(fs, depth - 1, b, Number(2)), Refuses(a, b));
  }

  lemma SplitOn(
      fs: seq<Filter>, depth: nat, path: seq<string>, a: seq<string>, b: seq<string>, p: seq<string>, v: Value,
      holds: Test)
    requires |path| > 2 && |p| > 2 && p[0] == path[0] && depth > 0
    requires PathAccepts(p[2..], v, Split(fs, depth - 1, path[2..], a, b), holds)
    ensures PathAccepts(p, v, Split(fs, depth, path, a, b), holds)
  {
    SplitLinks(fs, depth, path, a, b);
    OneLink(p, v, Split(fs, depth, path, a, b), Split(fs, depth - 1, path[2..], a, b), holds);
  }

  /** Each path is passed on its own. */
  lemma {:induction false} SplitAccepts(
      fs: seq<Filter>, depth: nat, path: seq<string>, a: seq<string>, b: seq<string>, p: seq<string>, v: Value)
    requires |path| >= 2 && |path| % 2 == 0 && path[|path| - 1] == "some" && a != b && |a| >= 2 && |b| >= 2
    requires Short(path + a, depth) && Short(path + b, depth) && Short(p, depth) && Named(fs, p)
    requires SameTypes(p, path + a) && SameTypes(p, path + b)
    ensures PathAccepts(p, v, Split(fs, depth, path, a, b), Refuses(a, b))
    decreases depth
  {
    if |p| == 2 || p[0] != path[0] {
      RefusesTells(a, b);
      SplitAside(fs, depth, path, a, b, p, v, Refuses(a, b));
    } else {
      TypesBehind(path, a, p);
      TypesBehind(path, b, p);
      if |path| == 2 {
        assert path[2..] + a == a && path[2..] + b == b;
        SplitLast(fs, depth, path, a, b, p, v);
      } else {
        SplitAccepts(fs, depth - 1, path[2..], a, b, p[2..], v);
        SplitOn(fs, depth, path, a, b, p, v, Refuses(a, b));
      }
    }
  }

  lemma {:induction false} SplitSingle(
      fs: seq<Filter>, depth: nat, path: seq<string>, a: seq<string>, b: seq<string>, p: seq<string>)
    requires |path| >= 2 && |path| % 2 == 0 && path[|path| - 1] == "some" && |a| >= 2 && SameTypes(p, path + a)
    ensures SingleIs(p, Split(fs, depth, path, a, b))
    decreases depth
  {
    if |p| > 2 && depth > 0 {
      PlainSingle(fs, depth - 1, p[2..]);
      if p[0] == path[0] {
        TypesBehind(path, a, p);
        if |path| == 2 {
          MarkedSingle(fs, depth - 1, a, Number(1), p[2..]);
          MarkedSingle(fs, depth - 1, b, Number(2), p[2..]);
        } else {
          SplitSingle(fs, depth - 1, path[2..], a, b, p[2..]);
        }
      }
    }
  }

  /** If a row meets the filters together, some record behind the link does, if there is one. */
  lemma RecordMeets(
      fs: seq<Filter>, toNumber: Value -> Value, pre: seq<string>, i: nat, q: seq<string>, row: Row,
      holds: Test) returns (rec: Row)
    requires i < |fs| && Wins(fs, i) && Through(fs[i], pre) && q == Target(fs[i])[|pre|..] && |q| > 2
    requires MeetsTogether(fs, toNumber, pre, row, holds) && q[0] in row.links && row.links[q[0]] != []
    ensures rec in row.links[q[0]] && MeetsTogether(fs, toNumber, pre + q[..2], rec, holds)
  {
    assert StepMet(fs, toNumber, pre, q, Operand(fs[i], toNumber), row, holds);
    var n :| 0 <= n < |row.links[q[0]]| && MeetsTogether(fs, toNumber, pre + q[..2], row.links[q[0]][n], holds);
    rec := row.links[q[0]][n];
  }

  /** The target goes on from `pre` by `path` and then `a`. */
  predicate GoesOn(t: seq<string>, pre: seq<string>, path: seq<string>, a: seq<string>) {
    pre <= t && t[|pre|..] == path + a
  }

  lemma GoesOnStep(t: seq<string>, pre: seq<string>, path: seq<string>, a: seq<string>)
    requires GoesOn(t, pre, path, a) && |path| >= 2 && |a| >= 2
    ensures GoesOn(t, pre + path[..2], path[2..], a)
    ensures pre < t && |path + a| > 2 && (path + a)[0] == path[0]
    ensures (path + a)[..2] == path[..2] && (path + a)[2..] == path[2..] + a
  {
  }

  /** `rec` is one of the records that the path leads to from the row. */
  ghost predicate Behind(row: Row, path: seq<string>, rec: Row)
    decreases |path|
  {
    if |path| < 2 then rec == row
    else path[0] in row.links && exists next :: next in row.links[path[0]] && Behind(next, path[2..], rec)
  }

  /** No link on the path is empty. */
  ghost predicate Filled(row: Row, path: seq<string>)
    decreases |path|
  {
    |path| >= 2 ==>
      path[0] in row.links && row.links[path[0]] != [] && forall next :: next in row.links[path[0]] ==>
          Filled(next, path[2..])
  }

  /** One step down the path: a record that meets the filters together. */
  lemma SharedStep(
    fs: seq<Filter>, toNumber: Value -> Value, pre: seq<string>, i: nat, path: seq<string>, a: seq<string>, row: Row,
        holds: Test)
    returns (next: Row)
    requires i < |fs| && Wins(fs, i) && GoesOn(Target(fs[i]), pre, path, a) && |path| >= 2 && |a| >= 2
    requires Filled(row, path) && MeetsTogether(fs, toNumber, pre, row, holds)
    ensures next in row.links[path[0]] && Filled(next, path[2..])
            && MeetsTogether(fs, toNumber, pre + path[..2], next, holds)
  {
    GoesOnStep(Target(fs[i]), pre, path, a);
    next := RecordMeets(fs, toNumber, pre, i, path + a, row, holds);
  }

  lemma BehindNext(row: Row, path: seq<string>, next: Row, rec: Row)
    requires |path| >= 2 && path[0] in row.links && next in row.links[path[0]] && Behind(next, path[2..], rec)
    ensures Behind(row, path, rec)
  {
  }

  lemma {:induction false} SplitFilled(fs: seq<Filter>, depth: nat, path: seq<string>, a: seq<string>, b: seq<string>)
    requires |path| <= 2 * depth && |path| >= 2 && |path| % 2 == 0
    ensures Filled(Split(fs, depth, path, a, b), path)
    decreases depth
  {
    SplitLinks(fs, depth, path, a, b);
    if |path| > 2 {
      SplitFilled(fs, depth - 1, path[2..], a, b);
    }
  }

  lemma BehindStep(row: Row, path: seq<string>, rec: Row) returns (next: Row)
    requires |path| >= 2 && Behind(row, path, rec)
    ensures path[0] in row.links && next in row.links[path[0]] && Behind(next, path[2..], rec)
    ensures |path| == 2 ==> rec == next
  {
    next :| next in row.links[path[0]] && Behind(next, path[2..], rec);
  }

  lemma SplitBehindLast(fs: seq<Filter>, depth: nat, path: seq<string>, a: seq<string>, b: seq<string>, rec: Row)
    requires |path| == 2 && depth > 0 && Behind(Split(fs, depth, path, a, b), path, rec)
    ensures rec == Marked(fs, depth - 1, a, Number(1)) || rec == Marked(fs, depth - 1, b, Number(2))
  {
    SplitLinks(fs, depth, path, a, b);
    var next := BehindStep(Split(fs, depth, path, a, b), path, rec);
  }

  lemma SplitBehind(fs: seq<Filter>, path: seq<string>, a: seq<string>, b: seq<string>, depth: nat, rec: Row)
    requires |path| >= 2 && |path| + 2 * depth == 4 && Behind(Split(fs, 2, path, a, b), path, rec)
    ensures rec == Marked(fs, depth, a, Number(1)) || rec == Marked(fs, depth, b, Number(2))
  {
    if |path| == 2 {
      SplitBehindLast(fs, 2, path, a, b, rec);
    } else {
      SplitLinks(fs, 2, path, a, b);
      var next := BehindStep(Split(fs, 2, path, a, b), path, rec);
      SplitBehindLast(fs, 1, path[2..], a, b, rec);
    }
  }

  /** Neither record behind the path passes both tails. */
  lemma NeitherHasBoth(
      fs: seq<Filter>, toNumber: Value -> Value, path: seq<string>, depth: nat, i: nat, j: nat, a: seq<string>,
      b: seq<string>)
    requires i < |fs| && j < |fs| && Wins(fs, i) && Wins(fs, j) && Target(fs[i]) == path + a
             && Target(fs[j]) == path + b
    requires Short(a, depth) && Short(b, depth)
    ensures !MeetsTogether(fs, toNumber, path, Marked(fs, depth, a, Number(1)), Refuses(a, b))
    ensures !MeetsTogether(fs, toNumber, path, Marked(fs, depth, b, Number(2)), Refuses(a, b))
  {
    var holds := Refuses(a, b);
    if MeetsTogether(fs, toNumber, path, Marked(fs, depth, a, Number(1)), holds) {
      TogetherGivesPath(fs, toNumber, path, Marked(fs, depth, a, Number(1)), holds, i);
      MarkedAt(fs, depth, a, Operand(fs[i], toNumber), Number(1), holds);
      assert false;
    }
    if MeetsTogether(fs, toNumber, path, Marked(fs, depth, b, Number(2)), holds) {
      TogetherGivesPath(fs, toNumber, path, Marked(fs, depth, b, Number(2)), holds, j);
      MarkedAt(fs, depth, b, Operand(fs[j], toNumber), Number(2), holds);
      assert false;
    }
  }

  /**
  A row that meets the filters together has, behind every path that a filter takes, one record that meets
  them together.
  */
  lemma FromRoot(
      fs: seq<Filter>, toNumber: Value -> Value, i: nat, path: seq<string>, a: seq<string>, row: Row,
      holds: Test) returns (rec: Row)
    requires i < |fs| && Wins(fs, i) && Target(fs[i]) == path + a && (|path| == 2 || |path| == 4) && |a| >= 2
    requires Filled(row, path) && MeetsTogether(fs, toNumber, [], row, holds)
    ensures Behind(row, path, rec) && MeetsTogether(fs, toNumber, path, rec, holds)
  {
    assert GoesOn(Target(fs[i]), [], path, a) by { assert Target(fs[i])[0..] == path + a; }
    var next := SharedStep(fs, toNumber, [], i, path, a, row, holds);
    assert [] + path[..2] == path[..2];
    if |path| == 2 {
      assert path[..2] == path;
      rec := next;
    } else {
      GoesOnStep(Target(fs[i]), [], path, a);
      rec := SharedStep(fs, toNumber, path[..2], i, path[2..], a, next, holds);
      LastStep(path);
      BehindNext(next, path[2..], rec, rec);
    }
    BehindNext(row, path, next, rec);
  }

  lemma LastStep(path: seq<string>)
    requires |path| == 4
    ensures path[..2] + path[2..][..2] == path && path[2..][2..] == []
  {
  }

  lemma SplitRefuses(
      fs: seq<Filter>, toNumber: Value -> Value, i: nat, j: nat, path: seq<string>, a: seq<string>, b: seq<string>,
      depth: nat)
    requires i < |fs| && j < |fs| && Wins(fs, i) && Wins(fs, j) && Target(fs[i]) == path + a
             && Target(fs[j]) == path + b
    requires (|path| == 2 && depth == 1) || (|path| == 4 && depth == 0)
    requires Short(a, depth) && Short(b, depth)
    ensures !MeetsTogether(fs, toNumber, [], Split(fs, 2, path, a, b), Refuses(a, b))
  {
    if MeetsTogether(fs, toNumber, [], Split(fs, 2, path, a, b), Refuses(a, b)) {
      SplitFilled(fs, 2, path, a, b);
      var rec := FromRoot(fs, toNumber, i, path, a, Split(fs, 2, path, a, b), Refuses(a, b));
      SplitBehind(fs, path, a, b, depth, rec);
      NeitherHasBoth(fs, toNumber, path, depth, i, j, a, b);
    }
  }

  lemma TargetShort(f: Filter)
    ensures Short(Target(f), 2)
  {
  }

  lemma SplitFilter(
      fs: seq<Filter>, toNumber: Value -> Value, path: seq<string>, a: seq<string>, b: seq<string>, m: nat)
    requires m < |fs| && KnownTypes(fs[m]) && a != b && |a| >= 2 && |b| >= 2 && Short(path + a, 2) && Short(path + b, 2)
    requires |path| >= 2 && |path| % 2 == 0 && path[|path| - 1] == "some"
    requires SameTypes(Target(fs[m]), path + a) && SameTypes(Target(fs[m]), path + b)
    ensures FilterAccepts(fs[m], toNumber, Split(fs, 2, path, a, b), Refuses(a, b))
    ensures SingleIs(Target(fs[m]), Split(fs, 2, path, a, b))
  {
    TargetNamed(fs, m);
    TargetShort(fs[m]);
    SplitAccepts(fs, 2, path, a, b, Target(fs[m]), Operand(fs[m], toNumber));
    SplitSingle(fs, 2, path, a, b, Target(fs[m]));
  }

  lemma SplitAll(
      fs: seq<Filter>, toNumber: Value -> Value, path: seq<string>, a: seq<string>, b: seq<string>, i: nat, j: nat)
    requires AllKnown(fs) && UniformTypes(fs) && i < |fs| && j < |fs| && Target(fs[i]) == path + a
             && Target(fs[j]) == path + b
    requires a != b && |a| >= 2 && |b| >= 2 && |path| >= 2 && |path| % 2 == 0 && path[|path| - 1] == "some"
    ensures AllPass(fs, toNumber, Split(fs, 2, path, a, b), Refuses(a, b)) && AllSingleIs(fs, Split(fs, 2, path, a, b))
  {
    TargetShort(fs[i]);
    TargetShort(fs[j]);
    forall m | 0 <= m < |fs|
      ensures FilterAccepts(fs[m], toNumber, Split(fs, 2, path, a, b), Refuses(a, b))
              && SingleIs(Target(fs[m]), Split(fs, 2, path, a, b)) {
      SplitFilter(fs, toNumber, path, a, b, m);
    }
  }

  /** The two tails behind a shared step. */
  lemma SharedTails(fs: seq<Filter>, i: nat, j: nat, path: seq<string>)
    requires AllKnown(fs) && ShareSomeAt(fs, i, j, path)
    ensures var a, b := Target(fs[i])[|path|..], Target(fs[j])[|path|..];
            && Target(fs[i]) == path + a && Target(fs[j]) == path + b && a != b && |a| >= 2 && |b| >= 2
            && var depth := 2 - |path| / 2; depth >= 0 && |path| + 2 * depth == 4 && Short(a, depth) && Short(b, depth)
  {
    TargetShort(fs[i]);
    TargetShort(fs[j]);
    CutTail(Target(fs[i]), path);
    CutTail(Target(fs[j]), path);
    WinnersApart(fs, i, j);
  }

  lemma CutTail(t: seq<string>, path: seq<string>)
    requires Short(t, 2) && path < t && |path| >= 2 && |path| % 2 == 0
    ensures t == path + t[|path|..] && |path| <= 4 && Short(t[|path|..], 2 - |path| / 2)
  {
  }

  lemma WinnersApart(fs: seq<Filter>, i: nat, j: nat)
    requires i < |fs| && j < |fs| && Wins(fs, i) && Wins(fs, j) && i != j
    ensures Target(fs[i]) != Target(fs[j])
  {
  }

  /** Two filters that share a "some" step: some row passes every filter on its own and fails the tree. */
  lemma SharedSome(fs: seq<Filter>, toNumber: Value -> Value, i: nat, j: nat, path: seq<string>)
    requires AllKnown(fs) && UniformTypes(fs) && ShareSomeAt(fs, i, j, path)
    ensures exists row, holds :: Differs(fs, toNumber, row, holds)
  {
    var a, b := Target(fs[i])[|path|..], Target(fs[j])[|path|..];
    SharedTails(fs, i, j, path);
    SplitAll(fs, toNumber, path, a, b, i, j);
    SplitRefuses(fs, toNumber, i, j, path, a, b, 2 - |path| / 2);
    TreeExact(fs, toNumber, Split(fs, 2, path, a, b), Refuses(a, b));
    assert Differs(fs, toNumber, Split(fs, 2, path, a, b), Refuses(a, b));
  }

  // ----- The main result

  /**
  For lists that ask about each link with one relation type, and over all rows with at most one record
  behind "is" links and all tests: the tree is the conjunction of its filters exactly if no two winning
  filters share a "some" step and filters with one target have one operand.
  */
  lemma ConjunctionExact(fs: seq<Filter>, toNumber: Value -> Value)
    requires AllKnown(fs) && UniformTypes(fs)
    ensures (forall row, holds :: !Differs(fs, toNumber, row, holds)) <==> !SharesSome(fs) && SameOperands(fs, toNumber)
  {
    if !SameOperands(fs, toNumber) {
      var i, j :| 0 <= i < |fs| && 0 <= j < |fs| && Target(fs[i]) == Target(fs[j])
          && Operand(fs[i], toNumber) != Operand(fs[j], toNumber);
      var w := WinnerFor(fs, i);
      LostOperand(fs, toNumber, w, if Operand(fs[i], toNumber) != Operand(fs[w], toNumber) then i else j);
    } else if SharesSome(fs) {
      var i, j, path :| ShareSomeAt(fs, i, j, path);
      SharedSome(fs, toNumber, i, j, path);
    } else {
      forall row, holds ensures !Differs(fs, toNumber, row, holds) {
        if AllSingleIs(fs, row) {
          ConjunctionIfApart(fs, toNumber, row, holds);
        }
      }
    }
  }

  // ----- Lists that ask about one link with two relation types

  /** Two filters share a "some" step, and the second is also asked of every record. */
  const MIXED: seq<Filter> :=
    [Filter("a", Number(1), "tags", "", "some", "is", false), Filter("b", Number(2), "tags", "", "some", "is", false),
     Filter("min_b", Number(2), "tags", "", "every", "is", false)]

  lemma MixedTargets()
    ensures AllKnown(MIXED)
    ensures Target(MIXED[0]) == ["tags", "some", "a", "equals"] && Target(MIXED[1]) == ["tags", "some", "b", "equals"]
    ensures Target(MIXED[2]) == ["tags", "every", "b", "equals"]
    ensures forall i :: 0 <= i < 3 ==> Wins(MIXED, i)
  {
    assert MIXED[2].field[4..] == "b" && "min_" <= MIXED[2].field;
  }

  predicate HoldsAt(rec: Row, field: string, v: Value, holds: Test) {
    field in rec.fields && holds("equals", v, rec.fields[field])
  }

  lemma MixedRecord(toNumber: Value -> Value, rec: Row, holds: Test)
    ensures HoldsAt(rec, "b", Number(2), holds) ==> MeetsTogether(MIXED, toNumber, ["tags", "every"], rec, holds)
    ensures HoldsAt(rec, "a", Number(1), holds) && HoldsAt(rec, "b", Number(2), holds) ==>
            MeetsTogether(MIXED, toNumber, ["tags", "some"], rec, holds)
  {
    MixedTargets();
  }

  /**
  Then the filters share a "some" step and the tree is their conjunction all the same: with two relation
  types on one link the condition is not exact.
  */
  lemma MixedTypes(toNumber: Value -> Value, row: Row, holds: Test)
    ensures AllKnown(MIXED) && SharesSome(MIXED) && !UniformTypes(MIXED) && !Differs(MIXED, toNumber, row, holds)
  {
    MixedTargets();
    assert ShareSomeAt(MIXED, 0, 1, ["tags", "some"]);
    assert !SameTypes(Target(MIXED[0]), Target(MIXED[2]));
    MixedExact(toNumber, row, holds);
  }

  lemma MixedExact(toNumber: Value -> Value, row: Row, holds: Test)
    requires AllKnown(MIXED)
    ensures Accepts(Where(MIXED, toNumber), row, holds) <==> AllPass(MIXED, toNumber, row, holds)
  {
    MixedTargets();
    if Accepts(Where(MIXED, toNumber), row, holds) {
      FiltersSound(MIXED, toNumber, row, holds);
    }
    if AllPass(MIXED, toNumber, row, holds) {
      MixedPass(toNumber, row, holds);
      TreeExact(MIXED, toNumber, row, holds);
    }
  }

  lemma MixedPass(toNumber: Value -> Value, row: Row, holds: Test)
    requires AllPass(MIXED, toNumber, row, holds)
    ensures MeetsTogether(MIXED, toNumber, [], row, holds)
  {
    MixedTargets();
    assert FilterAccepts(MIXED[0], toNumber, row, holds) && FilterAccepts(MIXED[2], toNumber, row, holds);
    var recs := row.links["tags"];
    forall n | 0 <= n < |recs| ensures HoldsAt(recs[n], "b", Number(2), holds)
        && MeetsTogether(MIXED, toNumber, ["tags", "every"], recs[n], holds) {
      assert PathAccepts(["tags", "every", "b", "equals"][2..], Number(2), recs[n], holds);
      MixedRecord(toNumber, recs[n], holds);
    }
    var n :| 0 <= n < |recs| && PathAccepts(["tags", "some", "a", "equals"][2..], Number(1), recs[n], holds);
    MixedRecord(toNumber, recs[n], holds);
    forall i | 0 <= i < |MIXED| && Wins(MIXED, i) && Through(MIXED[i], [])
      ensures StepMet(MIXED, toNumber, [], Target(MIXED[i])[0..], Operand(MIXED[i], toNumber), row, holds) {
      var q := Target(MIXED[i])[0..];
      assert [] + q[..2] == [q[0], q[1]];
    }
  }

  // ----- Ranges

  /**
  A min_ or max_ filter is compiled to a bound exactly if it is unrelated; otherwise to a test for equality,
  membership or inclusion of its plain value.
  */
  lemma RangeExact(f: Filter, toNumber: Value -> Value)
    requires IsMin(f) || IsMax(f)
    ensures var p := Target(f);
            && p[|p| - 2] == f.field[4..]
            && (p[|p| - 1] in {"gte", "lte"} <==> f.relation == "")
            && (f.relation == "" ==>
                 p[|p| - 1] == (if IsMin(f) then "gte" else "lte") && Operand(f, toNumber) == toNumber(f.value))
            && (f.relation != "" ==> p[|p| - 1] in {"equals", "in", "contains"} && Operand(f, toNumber) == f.value)
  {
    assert Operator(f) in {"equals", "in", "contains"};
  }
}
