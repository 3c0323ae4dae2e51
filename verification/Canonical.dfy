/**
The canonical form that requests are hashed in: the keys of every object, at any depth, in one fixed
order. An object lists its fields in the order JavaScript enumerates them.
*/
module Canonical {
  import opened Texts

  /** A JSON tree. A scalar is its JSON text. */
  datatype Json = Scalar(text: string) | Arr(items: seq<Json>) | Obj(fields: seq<Field>)
  datatype Field = Field(key: string, value: Json)

  predicate DistinctKeys(fields: seq<Field>) {
    forall i, j :: 0 <= i < j < |fields| ==> fields[i].key != fields[j].key
  }

  /** No object of the tree has two fields of one name. */
  predicate Distinct(v: Json) {
    match v
    case Scalar(_) => true
    case Arr(items) => forall i :: 0 <= i < |items| ==> Distinct(items[i])
    case Obj(fields) => DistinctKeys(fields) && forall i :: 0 <= i < |fields| ==> Distinct(fields[i].value)
  }

  // ----- The normalisation

  /**
  Keys that spell an array index are enumerated first, in numeric order; without leading zeros that is by
  length, then text.
  */
  predicate IsIndex(k: string) {
    && k != [] && (forall i :: 0 <= i < |k| ==> IsDigit(k[i]))
    && (k[0] == '0' ==> |k| == 1)
    && (|k| < 10 || (|k| == 10 && TextLess(k, "4294967295")))
  }

  predicate IndexLess(a: string, b: string) {
    |a| < |b| || (|a| == |b| && TextLess(a, b))
  }

  const PROTO := "__proto__"

  function PutIndex(fields: seq<Field>, f: Field): seq<Field> {
    if fields == [] || !IsIndex(fields[0].key) || IndexLess(f.key, fields[0].key) then [f] + fields
    else [fields[0]] + PutIndex(fields[1..], f)
  }

  /** `result[key] = value` for a key not yet there. Assigning to "__proto__" sets the prototype and adds no field. */
  function Put(fields: seq<Field>, f: Field): seq<Field> {
    if f.key == PROTO then fields
    else if IsIndex(f.key) then PutIndex(fields, f)
    else fields + [f]
  }

  function Build(fields: seq<Field>): seq<Field> {
    if fields == [] then [] else Put(Build(fields[..|fields| - 1]), fields[|fields| - 1])
  }

  function InsertByKey(f: Field, fields: seq<Field>): seq<Field> {
    if fields == [] || TextLess(f.key, fields[0].key) then [f] + fields
    else [fields[0]] + InsertByKey(f, fields[1..])
  }

  function SortByKey(fields: seq<Field>): seq<Field> {
    if fields == [] then [] else InsertByKey(fields[0], SortByKey(fields[1..]))
  }

  function Normalize(v: Json): Json {
    match v
    case Scalar(_) => v
    case Arr(items) => Arr(seq(|items|, i requires 0 <= i < |items| => Normalize(items[i])))
    case Obj(fields) => Obj(Build(SortByKey(NormalFields(fields))))
  }

  function NormalFields(fields: seq<Field>): seq<Field> {
    seq(|fields|, i requires 0 <= i < |fields| => Field(fields[i].key, Normalize(fields[i].value)))
  }

  // ----- Array indices

  function PowerOfTen(n: nat): (p: nat)
    ensures p > 0
  {
    if n == 0 then 1 else 10 * PowerOfTen(n - 1)
  }

  predicate AllDigits(k: string) {
    forall i :: 0 <= i < |k| ==> IsDigit(k[i])
  }

  lemma Scaled(a: int, b: int, p: nat)
    requires a <= b
    ensures a * p <= b * p
  {
  }

  /** The number that digits stand for. */
  function Decimal(k: string): nat
    requires AllDigits(k)
  {
    if k == [] then 0
    else
      Scaled(0, k[0] as int - '0' as int, PowerOfTen(|k| - 1));
      (k[0] as int - '0' as int) * PowerOfTen(|k| - 1) + Decimal(k[1..])
  }

  /** The decimal form of a number, which has no needless zeros. */
  predicate IsDecimal(k: string) {
    k != [] && AllDigits(k) && (k[0] == '0' ==> |k| == 1)
  }

  lemma {:induction false} DecimalBelow(k: string)
    requires AllDigits(k)
    ensures Decimal(k) < PowerOfTen(|k|)
  {
    if k != [] {
      DecimalBelow(k[1..]);
      Scaled(k[0] as int - '0' as int, 9, PowerOfTen(|k| - 1));
    }
  }

  lemma FirstDigitDecides(d: int, e: int, p: nat, rest: nat, other: nat)
    requires d < e && rest < p
    ensures d * p + rest < e * p + other
  {
    Scaled(d + 1, e, p);
    assert (d + 1) * p == d * p + p;
  }

  lemma {:induction false} DecimalOrder(a: string, b: string)
    requires AllDigits(a) && AllDigits(b) && |a| == |b|
    ensures TextLess(a, b) <==> Decimal(a) < Decimal(b)
  {
    if a != [] {
      var p, d, e := PowerOfTen(|a| - 1), a[0] as int - '0' as int, b[0] as int - '0' as int;
      DecimalOrder(a[1..], b[1..]);
      DecimalBelow(a[1..]);
      DecimalBelow(b[1..]);
      TextLessStep(a, b);
      if d < e {
        FirstDigitDecides(d, e, p, Decimal(a[1..]), Decimal(b[1..]));
      } else if e < d {
        FirstDigitDecides(e, d, p, Decimal(b[1..]), Decimal(a[1..]));
      }
    }
  }

  lemma {:induction false} PowersGrow(m: nat, n: nat)
    requires m <= n
    ensures PowerOfTen(m) <= PowerOfTen(n)
  {
    if m < n {
      PowersGrow(m, n - 1);
    }
  }

  /** More digits mean a larger number. */
  lemma LongerIsLarger(a: string, b: string)
    requires IsDecimal(a) && IsDecimal(b) && |a| < |b|
    ensures Decimal(a) < Decimal(b)
  {
    DecimalBelow(a);
    PowersGrow(|a|, |b| - 1);
    Scaled(1, b[0] as int - '0' as int, PowerOfTen(|b| - 1));
  }

  /** Indices come in the order of their numbers. */
  lemma IndexLessExact(a: string, b: string)
    requires IsDecimal(a) && IsDecimal(b)
    ensures IndexLess(a, b) <==> Decimal(a) < Decimal(b)
  {
    if |a| == |b| {
      DecimalOrder(a, b);
    } else if |a| < |b| {
      LongerIsLarger(a, b);
    } else {
      LongerIsLarger(b, a);
    }
  }

  /** The digits from `i` on, where `p` is the value of that place. */
  lemma DigitsFrom(k: string, i: nat, p: nat)
    requires AllDigits(k) && i < |k| && p == PowerOfTen(|k| - i - 1)
    ensures Decimal(k[i..]) == (k[i] as int - '0' as int) * p + Decimal(k[i + 1..])
    ensures PowerOfTen(|k| - i) == 10 * p
  {
    assert k[i..][1..] == k[i + 1..];
  }

  lemma EndOfIndices(k: string)
    requires AllDigits(k) && |k| == 10 && k[0] == '4' && k[1] == '2' && k[2] == '9' && k[3] == '4' && k[4] == '9'
    requires k[5] == '6' && k[6] == '7' && k[7] == '2' && k[8] == '9' && k[9] == '5'
    ensures Decimal(k) == 4294967295
  {
    DigitsFrom(k, 9, 1);
    DigitsFrom(k, 8, 10);
    DigitsFrom(k, 7, 100);
    DigitsFrom(k, 6, 1000);
    DigitsFrom(k, 5, 10000);
    DigitsFrom(k, 4, 100000);
    DigitsFrom(k, 3, 1000000);
    DigitsFrom(k, 2, 10000000);
    DigitsFrom(k, 1, 100000000);
    DigitsFrom(k, 0, 1000000000);
    assert k[0..] == k;
  }

  lemma IndexBefore(k: string, end: string)
    requires end == "4294967295"
    ensures IsIndex(k) <==> IsDecimal(k) && IndexLess(k, end)
    ensures IsDecimal(end) && Decimal(end) == 4294967295
  {
    EndOfIndices(end);
  }

  /** Indices are the numbers below 2 to the 32nd, less one. */
  lemma IsIndexExact(k: string)
    ensures IsIndex(k) <==> IsDecimal(k) && Decimal(k) < 4294967295
  {
    var end: string :| end == "4294967295";
    IndexBefore(k, end);
    if IsDecimal(k) {
      IndexLessExact(k, end);
    }
  }

  // ----- Equality up to the order of keys

  /**
  The trees are equal but for the order of the keys of objects, at any depth, and for fields whose key is in
  `lost`.
  */
  ghost predicate Same(a: Json, b: Json, lost: set<string>)
    decreases a
  {
    match a
    case Scalar(_) => a == b
    case Arr(items) => b.Arr? && |b.items| == |items| && forall i :: 0 <= i < |items| ==>
        Same(items[i], b.items[i], lost)
    case Obj(fields) => b.Obj? && SameKeys(fields, b.fields, lost) && forall i, j ::
      0 <= i < |fields| && 0 <= j < |b.fields| && Pair(fields[i], b.fields[j], lost) ==>
          Same(fields[i].value, b.fields[j].value, lost)
  }

  predicate Pair(f: Field, g: Field, lost: set<string>) {
    f.key == g.key && f.key !in lost
  }

  function Keys(fields: seq<Field>): set<string> {
    set i | 0 <= i < |fields| :: fields[i].key
  }

  predicate SameKeys(a: seq<Field>, b: seq<Field>, lost: set<string>) {
    Keys(a) - lost == Keys(b) - lost
  }

  // ----- What building a sorted object yields

  predicate KeyBefore(a: string, b: string) {
    if IsIndex(a) then IsIndex(b) ==> IndexLess(a, b)
    else !IsIndex(b) && TextLess(a, b)
  }

  predicate Ordered(fields: seq<Field>) {
    forall i, j :: 0 <= i < j < |fields| ==> KeyBefore(fields[i].key, fields[j].key)
  }

  predicate Ascending(fields: seq<Field>) {
    forall i, j :: 0 <= i < j < |fields| ==> TextLess(fields[i].key, fields[j].key)
  }

  lemma KeyBeforeStrict(a: string, b: string)
    ensures KeyBefore(a, b) ==> a != b && !KeyBefore(b, a)
    ensures a != b ==> KeyBefore(a, b) || KeyBefore(b, a)
  {
    TextLessTotal(a, b);
  }

  lemma KeyBeforeTransitive(a: string, b: string, c: string)
    requires KeyBefore(a, b) && KeyBefore(b, c)
    ensures KeyBefore(a, c)
  {
    if TextLess(a, b) && TextLess(b, c) {
      TextLessTransitive(a, b, c);
    }
  }

  lemma {:induction false} InsertByKeyMembers(f: Field, fields: seq<Field>)
    ensures forall x :: x in InsertByKey(f, fields) <==> x == f || x in fields
  {
    if fields != [] && !TextLess(f.key, fields[0].key) {
      InsertByKeyMembers(f, fields[1..]);
      assert fields == [fields[0]] + fields[1..];
    }
  }

  lemma {:induction false} InsertByKeyAscending(f: Field, fields: seq<Field>)
    requires Ascending(fields) && forall x :: x in fields ==> x.key != f.key
    ensures Ascending(InsertByKey(f, fields))
  {
    if fields == [] {
    } else if TextLess(f.key, fields[0].key) {
      forall i | 0 < i < |fields| ensures TextLess(f.key, fields[i].key) {
        TextLessTransitive(f.key, fields[0].key, fields[i].key);
      }
    } else {
      assert fields[0] in fields;
      TextLessTotal(f.key, fields[0].key);
      InsertByKeyAscending(f, fields[1..]);
      InsertByKeyMembers(f, fields[1..]);
      var rest := InsertByKey(f, fields[1..]);
      forall i | 0 <= i < |rest| ensures TextLess(fields[0].key, rest[i].key) {
        assert rest[i] in rest;
        if rest[i] != f {
          var j :| 0 <= j < |fields[1..]| && fields[1..][j] == rest[i];
          assert fields[j + 1] == rest[i];
        }
      }
    }
  }

  lemma {:induction false} SortByKeyCorrect(fields: seq<Field>)
    requires DistinctKeys(fields)
    ensures Ascending(SortByKey(fields))
    ensures forall x :: x in SortByKey(fields) <==> x in fields
  {
    if fields != [] {
      SortByKeyCorrect(fields[1..]);
      InsertByKeyMembers(fields[0], SortByKey(fields[1..]));
      assert fields == [fields[0]] + fields[1..];
      InsertByKeyAscending(fields[0], SortByKey(fields[1..]));
    }
  }

  lemma {:induction false} PutIndexOrdered(fields: seq<Field>, f: Field)
    requires Ordered(fields) && IsIndex(f.key) && forall x :: x in fields ==> x.key != f.key
    ensures Ordered(PutIndex(fields, f))
    ensures forall x :: x in PutIndex(fields, f) <==> x == f || x in fields
  {
    if fields == [] {
    } else if !IsIndex(fields[0].key) || IndexLess(f.key, fields[0].key) {
      assert KeyBefore(f.key, fields[0].key);
      forall i | 0 < i < |fields| ensures KeyBefore(f.key, fields[i].key) {
        KeyBeforeTransitive(f.key, fields[0].key, fields[i].key);
      }
    } else {
      assert fields[0] in fields && fields == [fields[0]] + fields[1..];
      KeyBeforeStrict(f.key, fields[0].key);
      PutIndexOrdered(fields[1..], f);
      var rest := PutIndex(fields[1..], f);
      forall i | 0 <= i < |rest| ensures KeyBefore(fields[0].key, rest[i].key) {
        assert rest[i] in rest;
        if rest[i] != f {
          var j :| 0 <= j < |fields[1..]| && fields[1..][j] == rest[i];
          assert fields[j + 1] == rest[i];
        }
      }
    }
  }

  /** In the sorted order a name comes after all fields put before it, and an index is not among them. */
  lemma PutOrdered(before: seq<Field>, f: Field)
    requires Ordered(before) && forall x :: x in before ==> TextLess(x.key, f.key)
    ensures Ordered(Put(before, f))
    ensures forall x :: x in Put(before, f) <==> x in before || (x == f && f.key != PROTO)
  {
    forall x | x in before ensures x.key != f.key {
      TextLessTotal(x.key, f.key);
    }
    if f.key != PROTO {
      if IsIndex(f.key) {
        PutIndexOrdered(before, f);
      } else {
        forall i | 0 <= i < |before| ensures KeyBefore(before[i].key, f.key) {
          assert before[i] in before;
        }
      }
    }
  }

  lemma {:induction false} BuildOrdered(fields: seq<Field>)
    requires Ascending(fields)
    ensures Ordered(Build(fields))
    ensures forall x :: x in Build(fields) <==> x in fields && x.key != PROTO
  {
    if fields != [] {
      var n := |fields| - 1;
      var front, f := fields[..n], fields[n];
      BuildOrdered(front);
      assert fields == front + [f];
      forall x | x in Build(front) ensures TextLess(x.key, f.key) {
        var i :| 0 <= i < n && front[i] == x;
        assert fields[i] == x;
      }
      PutOrdered(Build(front), f);
    }
  }

  lemma HasMember(a: seq<Field>)
    requires a != []
    ensures exists x: Field :: x in a
  {
    assert a[0] in a;
  }

  /** A list of distinct keys in the fixed order is determined by its fields. */
  lemma {:induction false} OrderedUnique(a: seq<Field>, b: seq<Field>)
    requires Ordered(a) && Ordered(b) && forall x :: x in a <==> x in b
    ensures a == b
  {
    if a == [] {
      if b != [] {
        HasMember(b);
      }
    } else {
      assert a[0] in b;
      assert b[0] in b && b[0] in a;
      KeyBeforeStrict(a[0].key, b[0].key);
      assert a[0] == b[0];
      forall x: Field ensures x in a[1..] <==> x in b[1..] {
        TailMembers(a, x);
        TailMembers(b, x);
      }
      OrderedUnique(a[1..], b[1..]);
      assert a == [a[0]] + a[1..] && b == [b[0]] + b[1..];
    }
  }

  lemma TailMembers(a: seq<Field>, x: Field)
    requires a != [] && Ordered(a)
    ensures x in a[1..] <==> x in a && x != a[0]
  {
    assert a == [a[0]] + a[1..];
    if x in a[1..] {
      var i :| 0 <= i < |a[1..]| && a[1..][i] == x;
      assert KeyBefore(a[0].key, a[i + 1].key);
      KeyBeforeStrict(a[0].key, a[i + 1].key);
    }
  }

  /** The fields of a normalised object: each kept key once, its value normalised, in the fixed order. */
  lemma NormalObject(fields: seq<Field>)
    requires DistinctKeys(fields)
    ensures var r := Normalize(Obj(fields)).fields;
            && Ordered(r)
            && (forall x :: x in r <==> x in NormalFields(fields) && x.key != PROTO)
  {
    SortByKeyCorrect(NormalFields(fields));
    BuildOrdered(SortByKey(NormalFields(fields)));
  }

  /** In the order of keys that JavaScript enumerates: indices by their numbers, then other names by their texts. */
  ghost predicate Enumerated(a: string, b: string) {
    var first, second := IsDecimal(a) && Decimal(a) < 4294967295, IsDecimal(b) && Decimal(b) < 4294967295;
    if first then second ==> Decimal(a) < Decimal(b) else !second && exists n :: DifferAt(a, b, n)
  }

  /** The fields of a normal form are in this order, so the text that is hashed depends on nothing else. */
  lemma NormalOrder(fields: seq<Field>, i: nat, j: nat)
    requires DistinctKeys(fields) && i < j < |Normalize(Obj(fields)).fields|
    ensures var r := Normalize(Obj(fields)).fields; Enumerated(r[i].key, r[j].key)
  {
    NormalObject(fields);
    var r := Normalize(Obj(fields)).fields;
    var a, b := r[i].key, r[j].key;
    IsIndexExact(a);
    IsIndexExact(b);
    TextLessExact(a, b);
    if IsIndex(a) && IsIndex(b) {
      IndexLessExact(a, b);
    }
  }

  // ----- The main results

  lemma NormalKeys(fields: seq<Field>)
    ensures Keys(NormalFields(fields)) == Keys(fields)
  {
    var p := NormalFields(fields);
    forall i | 0 <= i < |fields| ensures p[i].key == fields[i].key && p[i].key in Keys(fields)
        && fields[i].key in Keys(p) {
    }
  }

  /** Objects with the same kept keys and the same normal values under them have the same normal form. */
  lemma SameFields(p: seq<Field>, q: seq<Field>)
    requires SameKeys(p, q, {PROTO})
    requires forall i, j :: 0 <= i < |p| && 0 <= j < |q| && Pair(p[i], q[j], {PROTO}) ==> p[i].value == q[j].value
    ensures forall x: Field :: x.key != PROTO ==> (x in p <==> x in q)
  {
    forall x: Field | x.key != PROTO ensures x in p <==> x in q {
      if x in p {
        var i :| 0 <= i < |p| && p[i] == x;
        assert x.key in Keys(p) - {PROTO};
        var j :| 0 <= j < |q| && q[j].key == x.key;
        assert Pair(p[i], q[j], {PROTO});
      }
      if x in q {
        var j :| 0 <= j < |q| && q[j] == x;
        assert x.key in Keys(q) - {PROTO};
        var i :| 0 <= i < |p| && p[i].key == x.key;
        assert Pair(p[i], q[j], {PROTO});
      }
    }
  }

  lemma {:induction false} SameGivesEqual(a: Json, b: Json)
    requires Distinct(a) && Distinct(b) && Same(a, b, {PROTO})
    ensures Normalize(a) == Normalize(b)
  {
    match a
    case Scalar(_) =>
    case Arr(items) =>
      forall i | 0 <= i < |items| ensures Normalize(items[i]) == Normalize(b.items[i]) {
        SameGivesEqual(items[i], b.items[i]);
      }
    case Obj(fields) =>
      NormalObject(fields);
      NormalObject(b.fields);
      var p, q := NormalFields(fields), NormalFields(b.fields);
      NormalKeys(fields);
      NormalKeys(b.fields);
      forall i, j | 0 <= i < |p| && 0 <= j < |q| && Pair(p[i], q[j], {PROTO}) ensures p[i].value == q[j].value {
        assert Pair(fields[i], b.fields[j], {PROTO});
        SameGivesEqual(fields[i].value, b.fields[j].value);
      }
      SameFields(p, q);
      OrderedUnique(Normalize(a).fields, Normalize(b).fields);
  }

  lemma FieldsSame(p: seq<Field>, q: seq<Field>)
    requires DistinctKeys(q) && forall x: Field :: x.key != PROTO ==> (x in p <==> x in q)
    ensures SameKeys(p, q, {PROTO})
    ensures forall i, j :: 0 <= i < |p| && 0 <= j < |q| && Pair(p[i], q[j], {PROTO}) ==> p[i].value == q[j].value
  {
    forall i | 0 <= i < |p| && p[i].key != PROTO ensures p[i].key in Keys(q) {
      assert p[i] in q;
    }
    forall j | 0 <= j < |q| && q[j].key != PROTO ensures q[j].key in Keys(p) {
      assert q[j] in p;
    }
    forall i, j | 0 <= i < |p| && 0 <= j < |q| && Pair(p[i], q[j], {PROTO}) ensures p[i].value == q[j].value {
      assert p[i] in q;
    }
  }

  lemma {:induction false} EqualGivesSame(a: Json, b: Json)
    requires Distinct(a) && Distinct(b) && Normalize(a) == Normalize(b)
    ensures Same(a, b, {PROTO})
  {
    match a
    case Scalar(_) =>
    case Arr(items) =>
      forall i | 0 <= i < |items| ensures Same(items[i], b.items[i], {PROTO}) {
        assert Normalize(items[i]) == Normalize(a).items[i] == Normalize(b).items[i] == Normalize(b.items[i]);
        EqualGivesSame(items[i], b.items[i]);
      }
    case Obj(fields) =>
      NormalObject(fields);
      NormalObject(b.fields);
      var p, q := NormalFields(fields), NormalFields(b.fields);
      NormalKeys(fields);
      NormalKeys(b.fields);
      FieldsSame(p, q);
      forall i, j | 0 <= i < |fields| && 0 <= j < |b.fields| && Pair(fields[i], b.fields[j], {PROTO})
        ensures Same(fields[i].value, b.fields[j].value, {PROTO})
      {
        assert Pair(p[i], q[j], {PROTO});
        EqualGivesSame(fields[i].value, b.fields[j].value);
      }
  }

  /** Two trees have one canonical form exactly when they differ in key order only, fields named "__proto__" aside. */
  lemma CanonicalExact(a: Json, b: Json)
    requires Distinct(a) && Distinct(b)
    ensures Normalize(a) == Normalize(b) <==> Same(a, b, {PROTO})
  {
    if Same(a, b, {PROTO}) {
      SameGivesEqual(a, b);
    }
    if Normalize(a) == Normalize(b) {
      EqualGivesSame(a, b);
    }
  }

  /** Normalising changes nothing but key order, and drops the "__proto__" fields. */
  lemma {:induction false} NormalizeSame(a: Json)
    requires Distinct(a)
    ensures Distinct(Normalize(a)) && Same(a, Normalize(a), {PROTO})
  {
    match a
    case Scalar(_) =>
    case Arr(items) =>
      forall i | 0 <= i < |items| ensures Distinct(Normalize(items[i]))
          && Same(items[i], Normalize(items[i]), {PROTO}) {
        NormalizeSame(items[i]);
      }
    case Obj(fields) =>
      NormalObject(fields);
      var p, r := NormalFields(fields), Normalize(a).fields;
      forall i, j | 0 <= i < j < |r| ensures r[i].key != r[j].key {
        KeyBeforeStrict(r[i].key, r[j].key);
      }
      assert forall j :: 0 <= j < |r| ==> r[j] in r && r[j].key != PROTO;
      FieldsSame(p, r);
      NormalKeys(fields);
      forall j | 0 <= j < |r| ensures Distinct(r[j].value) {
        assert r[j] in p;
        var i :| 0 <= i < |p| && p[i] == r[j];
        NormalizeSame(fields[i].value);
      }
      forall i, j | 0 <= i < |fields| && 0 <= j < |r| && Pair(fields[i], r[j], {PROTO})
        ensures Same(fields[i].value, r[j].value, {PROTO})
      {
        assert Pair(p[i], r[j], {PROTO});
        NormalizeSame(fields[i].value);
      }
  }

  /** Normalising twice is normalising once. */
  lemma NormalizeIdempotent(a: Json)
    requires Distinct(a)
    ensures Normalize(Normalize(a)) == Normalize(a)
  {
    NormalizeSame(a);
    CanonicalExact(a, Normalize(a));
  }

  /** No field of the tree, at any depth, has this name. */
  predicate Lacks(v: Json, key: string) {
    match v
    case Scalar(_) => true
    case Arr(items) => forall i :: 0 <= i < |items| ==> Lacks(items[i], key)
    case Obj(fields) => forall i :: 0 <= i < |fields| ==> fields[i].key != key && Lacks(fields[i].value, key)
  }

  lemma {:induction false} NothingLost(a: Json, b: Json)
    requires Lacks(a, PROTO) && Lacks(b, PROTO)
    ensures Same(a, b, {PROTO}) <==> Same(a, b, {})
  {
    match a
    case Scalar(_) =>
    case Arr(items) =>
      if b.Arr? && |b.items| == |items| {
        forall i | 0 <= i < |items| ensures Same(items[i], b.items[i], {PROTO}) <==> Same(items[i], b.items[i], {}) {
          NothingLost(items[i], b.items[i]);
        }
      }
    case Obj(fields) =>
      if b.Obj? {
        assert Keys(fields) - {PROTO} == Keys(fields) - {} && Keys(b.fields) - {PROTO} == Keys(b.fields) - {};
        assert forall i, j :: 0 <= i < |fields| && 0 <= j < |b.fields| ==>
            (Pair(fields[i], b.fields[j], {PROTO}) <==> Pair(fields[i], b.fields[j], {}));
        forall i, j | 0 <= i < |fields| && 0 <= j < |b.fields|
          ensures Same(fields[i].value, b.fields[j].value, {PROTO}) <==> Same(fields[i].value, b.fields[j].value, {})
        {
          NothingLost(fields[i].value, b.fields[j].value);
        }
      }
  }

  /** Without such fields the canonical form tells exactly the trees apart that differ in more than key order. */
  lemma CanonicalWithoutProto(a: Json, b: Json)
    requires Distinct(a) && Distinct(b) && Lacks(a, PROTO) && Lacks(b, PROTO)
    ensures Normalize(a) == Normalize(b) <==> Same(a, b, {})
  {
    CanonicalExact(a, b);
    NothingLost(a, b);
  }

  /** With them it does not: two bodies with different content get the same form. */
  lemma ProtoIsLost()
    ensures var a, b := Obj([Field(PROTO, Scalar("1"))]), Obj([]);
            Distinct(a) && Distinct(b) && Normalize(a) == Normalize(b) && !Same(a, b, {})
  {
    var a, b := Obj([Field(PROTO, Scalar("1"))]), Obj([]);
    assert a.fields[0].key == PROTO && PROTO in Keys(a.fields);
    assert Keys(a.fields) == {PROTO} && Keys(b.fields) == {};
    assert PROTO in Keys(a.fields) - {} && PROTO !in Keys(b.fields) - {};
    assert !SameKeys(a.fields, b.fields, {});
    CanonicalExact(a, b);
  }
}
