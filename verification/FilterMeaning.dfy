/** What a list request asks for, in the database's terms, and that the compiled tree asks for just that. */
module FilterMeaning {
  import opened Wrappers
  import opened Filters

  // ----- The operators as the database tests them

  ghost predicate Includes(text: string, part: string) {
    exists before, after :: text == before + part + after
  }

  ghost predicate Tests(op: string, operand: Value, stored: Value) {
    || (op == "equals" && stored == operand)
    || (op == "in" && operand.Many? && stored in operand.items)
    || (op == "contains" && operand.Text? && stored.Text? && Includes(stored.text, operand.text))
    || (op == "gte" && operand.Number? && stored.Number? && stored.number >= operand.number)
    || (op == "lte" && operand.Number? && stored.Number? && stored.number <= operand.number)
  }

  ghost function Database(): Test {
    (op, operand, stored) => Tests(op, operand, stored)
  }

  // ----- What one filter asks for

  /**
  A list asks for one of its values, a text for inclusion unless the field is an enumeration, the rest for
  equality.
  */
  datatype Kind = AtLeast | AtMost | OneOf | Inclusion | Equality

  predicate HasPrefix(s: string, p: string) {
    |s| >= |p| && s[..|p|] == p
  }

  function NameOf(f: Filter): string {
    if HasPrefix(f.field, "min_") || HasPrefix(f.field, "max_") then f.field[4..] else f.field
  }

  predicate OfEnumeration(f: Filter) {
    f.isEnum || exists n :: 0 <= n <= |f.field| && f.field[n..] == "Type"
  }

  function KindOf(f: Filter): Kind {
    if f.relation == "" && HasPrefix(f.field, "min_") then AtLeast
    else if f.relation == "" && HasPrefix(f.field, "max_") then AtMost
    else match f.value
      case Many(_) => OneOf
      case Text(_) => if OfEnumeration(f) then Equality else Inclusion
      case _ => Equality
  }

  /** The stored value is as the filter asks. */
  ghost predicate Suits(f: Filter, toNumber: Value -> Value, stored: Value) {
    match KindOf(f)
    case AtLeast => stored.Number? && toNumber(f.value).Number? && stored.number >= toNumber(f.value).number
    case AtMost => stored.Number? && toNumber(f.value).Number? && stored.number <= toNumber(f.value).number
    case OneOf => f.value.Many? && stored in f.value.items
    case Inclusion => f.value.Text? && stored.Text? && Includes(stored.text, f.value.text)
    case Equality => stored == f.value
  }

  ghost predicate FieldSuits(f: Filter, toNumber: Value -> Value, row: Row) {
    NameOf(f) in row.fields && Suits(f, toNumber, row.fields[NameOf(f)])
  }

  /** The second link, if there is one, leads to one record, or only to records, that suit. */
  ghost predicate BehindSuits(f: Filter, toNumber: Value -> Value, row: Row) {
    if f.relation2 == "" then FieldSuits(f, toNumber, row)
    else f.relation2 in row.links &&
         if f.relationType2 == "every" then
           forall i :: 0 <= i < |row.links[f.relation2]| ==> FieldSuits(f, toNumber, row.links[f.relation2][i])
         else
           exists i :: 0 <= i < |row.links[f.relation2]| && FieldSuits(f, toNumber, row.links[f.relation2][i])
  }

  /** The row is what the filter asks for: by its own field, or by one or all of the records that it is linked to. */
  ghost predicate Asks(f: Filter, toNumber: Value -> Value, row: Row) {
    if f.relation == "" then FieldSuits(f, toNumber, row)
    else f.relation in row.links &&
         if f.relationType == "every" then
           forall i :: 0 <= i < |row.links[f.relation]| ==> BehindSuits(f, toNumber, row.links[f.relation][i])
         else
           exists i :: 0 <= i < |row.links[f.relation]| && BehindSuits(f, toNumber, row.links[f.relation][i])
  }

  // ----- The target says the same

  lemma PrefixExact(s: string, p: string)
    ensures HasPrefix(s, p) <==> StartsWith(s, p)
  {
  }

  lemma EnumerationExact(f: Filter)
    ensures OfEnumeration(f) <==> IsEnumField(f)
  {
    if n :| 0 <= n <= |f.field| && f.field[n..] == "Type" {
      assert n == |f.field| - 4;
    }
  }

  /** The last key of the target tests exactly what the kind of the filter says. */
  lemma OperatorExact(f: Filter, toNumber: Value -> Value, stored: Value)
    ensures var p := Target(f);
            && p[|p| - 2] == NameOf(f)
            && (Tests(p[|p| - 1], Operand(f, toNumber), stored) <==> Suits(f, toNumber, stored))
  {
    PrefixExact(f.field, "min_");
    PrefixExact(f.field, "max_");
    EnumerationExact(f);
  }

  lemma FieldExact(f: Filter, toNumber: Value -> Value, row: Row)
    ensures var p := Target(f);
            PathAccepts(p[|p| - 2..], Operand(f, toNumber), row, Database()) <==> FieldSuits(f, toNumber, row)
  {
    var p := Target(f);
    var q := p[|p| - 2..];
    assert q[0] == p[|p| - 2] && q[1] == p[|p| - 1];
    if NameOf(f) in row.fields {
      OperatorExact(f, toNumber, row.fields[NameOf(f)]);
    } else {
      OperatorExact(f, toNumber, Null);
    }
  }

  lemma BehindExact(f: Filter, toNumber: Value -> Value, row: Row)
    requires f.relation != "" && KnownTypes(f)
    ensures PathAccepts(Target(f)[2..], Operand(f, toNumber), row, Database()) <==> BehindSuits(f, toNumber, row)
  {
    var p := Target(f);
    if f.relation2 == "" {
      FieldExact(f, toNumber, row);
    } else {
      assert p[2..][0] == f.relation2 && p[2..][1] == f.relationType2 && p[2..][2..] == p[4..];
      if f.relation2 in row.links {
        forall i | 0 <= i < |row.links[f.relation2]|
          ensures PathAccepts(p[4..], Operand(f, toNumber), row.links[f.relation2][i], Database()) <==>
                  FieldSuits(f, toNumber, row.links[f.relation2][i]) {
          FieldExact(f, toNumber, row.links[f.relation2][i]);
        }
      }
    }
  }

  /** For every row and every filter: the filter as compiled accepts the row exactly if the row is what it asks for. */
  lemma AsksExact(f: Filter, toNumber: Value -> Value, row: Row)
    requires KnownTypes(f)
    ensures FilterAccepts(f, toNumber, row, Database()) <==> Asks(f, toNumber, row)
  {
    var p := Target(f);
    if f.relation == "" {
      assert p[0..] == p;
      FieldExact(f, toNumber, row);
    } else if f.relation in row.links {
      forall i | 0 <= i < |row.links[f.relation]|
        ensures PathAccepts(p[2..], Operand(f, toNumber), row.links[f.relation][i], Database()) <==>
                BehindSuits(f, toNumber, row.links[f.relation][i]) {
        BehindExact(f, toNumber, row.links[f.relation][i]);
      }
    }
  }

  // ----- What the whole request asks for

  /** The two filters ask the same kind of thing of the same field along the same links. */
  predicate SameQuestion(f: Filter, g: Filter) {
    && KindOf(f) == KindOf(g) && NameOf(f) == NameOf(g) && f.relation == g.relation
    && (f.relation != "" ==>
          && f.relationType == g.relationType && f.relation2 == g.relation2
          && (f.relation2 != "" ==> f.relationType2 == g.relationType2))
  }

  function KeyFor(k: Kind): string {
    match k
    case AtLeast => "gte"
    case AtMost => "lte"
    case OneOf => "in"
    case Inclusion => "contains"
    case Equality => "equals"
  }

  lemma TargetMeans(f: Filter)
    ensures Target(f) ==
            (if f.relation == "" then []
             else if f.relation2 == "" then [f.relation, f.relationType]
             else [f.relation, f.relationType, f.relation2, f.relationType2]) + [NameOf(f), KeyFor(KindOf(f))]
  {
    PrefixExact(f.field, "min_");
    PrefixExact(f.field, "max_");
    EnumerationExact(f);
  }

  lemma QuestionExact(f: Filter, g: Filter)
    ensures Target(f) == Target(g) <==> SameQuestion(f, g)
  {
    TargetMeans(f);
    TargetMeans(g);
    var p, q := Target(f), Target(g);
    if p == q {
      assert |p| == |q| && p[|p| - 1] == q[|q| - 1] && p[|p| - 2] == q[|q| - 2];
      if f.relation != "" {
        assert p[0] == q[0] && p[1] == q[1];
        if f.relation2 != "" {
          assert p[2] == q[2] && p[3] == q[3];
        }
      }
    }
  }

  /** No later filter asks the same question, so this one's answer counts. */
  predicate Counts(fs: seq<Filter>, i: nat)
    requires i < |fs|
  {
    forall j :: i < j < |fs| ==> !SameQuestion(fs[j], fs[i])
  }

  lemma CountsExact(fs: seq<Filter>, i: nat)
    requires i < |fs|
    ensures Wins(fs, i) <==> Counts(fs, i)
  {
    forall j | i < j < |fs| ensures Target(fs[j]) != Target(fs[i]) <==> !SameQuestion(fs[j], fs[i]) {
      QuestionExact(fs[j], fs[i]);
    }
  }

  /** A row that the database returns for the compiled tree is what every filter that counts asks for. */
  lemma RequestSound(fs: seq<Filter>, toNumber: Value -> Value, row: Row)
    requires forall i :: 0 <= i < |fs| ==> KnownTypes(fs[i])
    requires Accepts(Where(fs, toNumber), row, Database())
    ensures forall i :: 0 <= i < |fs| && Counts(fs, i) ==> Asks(fs[i], toNumber, row)
  {
    FiltersSound(fs, toNumber, row, Database());
    forall i | 0 <= i < |fs| && Counts(fs, i) ensures Asks(fs[i], toNumber, row) {
      CountsExact(fs, i);
      AsksExact(fs[i], toNumber, row);
    }
  }

  /** Behind every link that the filter takes, other than with "every", the row has at most one record. */
  predicate OneBehind(f: Filter, row: Row) {
    f.relation != "" && f.relation in row.links ==>
      && (f.relationType == "every" || |row.links[f.relation]| <= 1)
      && forall i :: 0 <= i < |row.links[f.relation]| ==> OneBehindNext(f, row.links[f.relation][i])
  }

  predicate OneBehindNext(f: Filter, row: Row) {
    f.relation2 != "" && f.relation2 in row.links ==>
      f.relationType2 == "every" || |row.links[f.relation2]| <= 1
  }

  lemma OneBehindExact(f: Filter, row: Row)
    requires OneBehind(f, row)
    ensures OneRecord(Target(f), row)
  {
    var p := Target(f);
    if f.relation != "" && f.relation in row.links {
      forall i | 0 <= i < |row.links[f.relation]| ensures OneRecord(p[2..], row.links[f.relation][i]) {
        assert OneBehindNext(f, row.links[f.relation][i]);
        if f.relation2 != "" {
          assert p[2..][0] == f.relation2 && p[2..][1] == f.relationType2 && |p[2..][2..]| == 2;
        }
      }
    }
  }

  /**
  With at most one record behind each link, or with "every", the database returns exactly the rows that
  every filter asks for that no later one replaces.
  */
  lemma RequestExact(fs: seq<Filter>, toNumber: Value -> Value, row: Row)
    requires forall i :: 0 <= i < |fs| ==> KnownTypes(fs[i]) && OneBehind(fs[i], row)
    ensures Accepts(Where(fs, toNumber), row, Database()) <==>
            forall i :: 0 <= i < |fs| && Counts(fs, i) ==> Asks(fs[i], toNumber, row)
  {
    forall i | 0 <= i < |fs|
      ensures OneRecord(Target(fs[i]), row) && (Wins(fs, i) <==> Counts(fs, i))
      ensures FilterAccepts(fs[i], toNumber, row, Database()) <==> Asks(fs[i], toNumber, row) {
      OneBehindExact(fs[i], row);
      CountsExact(fs, i);
      AsksExact(fs[i], toNumber, row);
    }
    FiltersExact(fs, toNumber, row, Database());
  }

  lemma OneFilter(f: Filter, toNumber: Value -> Value, row: Row)
    requires f.relation == ""
    ensures Accepts(Where([f], toNumber), row, Database()) <==> Asks(f, toNumber, row)
  {
    RequestExact([f], toNumber, row);
    assert Counts([f], 0) && [f][0] == f;
  }

  lemma PlainName(f: Filter)
    requires f.field == "name"
    ensures NameOf(f) == "name" && (OfEnumeration(f) <==> f.isEnum)
    ensures f.relation == "" && f.value.Text? ==> KindOf(f) == if f.isEnum then Equality else Inclusion
  {
    assert f.field[..4][0] == 'n' && "min_"[0] == 'm' && "max_"[0] == 'm' && "Type"[0] == 'T';
    assert f.field[0..][0] == 'n';
  }

  /** A search for part of a name finds the longer name, and a search of an enumeration only the value itself. */
  lemma PartOfName(row: Row, toNumber: Value -> Value)
    requires "name" in row.fields && row.fields["name"] == Text("Mariana")
    ensures var f := Filter("name", Text("ana"), "", "", "is", "is", false);
            && Accepts(Where([f], toNumber), row, Database())
            && !Accepts(Where([f.(isEnum := true)], toNumber), row, Database())
  {
    var f := Filter("name", Text("ana"), "", "", "is", "is", false);
    assert "Mariana" == "Mari" + "ana" + "";
    var g := f.(isEnum := true);
    PlainName(f);
    PlainName(g);
    OneFilter(f, toNumber, row);
    OneFilter(g, toNumber, row);
    assert Includes("Mariana", "ana");
  }
}
