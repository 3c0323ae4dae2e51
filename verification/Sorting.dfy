/**
The stable ascending sort that the source calls as `array.sort((a, b) => key(a) - key(b))`.
Elements with equal keys keep their order, as the JavaScript sort guarantees.
*/
module Sorting {

  ghost predicate Sorted<T>(s: seq<T>, key: T -> int) {
    forall i, j :: 0 <= i < j < |s| ==> key(s[i]) <= key(s[j])
  }

  function SortBy<T>(s: seq<T>, key: T -> int): (r: seq<T>)
    ensures |r| == |s|
  {
    if s == [] then [] else Insert(s[0], SortBy(s[1..], key), key)
  }

  /** Puts `x` before every element whose key is not smaller: `x` came first, so it stays first among equals. */
  function Insert<T>(x: T, s: seq<T>, key: T -> int): (r: seq<T>)
    ensures |r| == |s| + 1
  {
    if s == [] || key(x) <= key(s[0]) then [x] + s else [s[0]] + Insert(x, s[1..], key)
  }

  lemma {:induction false} InsertMembers<T>(x: T, s: seq<T>, key: T -> int)
    ensures multiset(Insert(x, s, key)) == multiset([x]) + multiset(s)
  {
    if s == [] || key(x) <= key(s[0]) {
    } else {
      InsertMembers(x, s[1..], key);
      assert s == [s[0]] + s[1..];
    }
  }

  lemma InsertAbove<T>(x: T, s: seq<T>, key: T -> int, low: int)
    requires low <= key(x) && forall i :: 0 <= i < |s| ==> low <= key(s[i])
    ensures forall i :: 0 <= i < |Insert(x, s, key)| ==> low <= key(Insert(x, s, key)[i])
  {
    var r := Insert(x, s, key);
    InsertMembers(x, s, key);
    forall i | 0 <= i < |r| ensures low <= key(r[i]) {
      assert r[i] in multiset(r);
      assert r[i] == x || r[i] in s;
    }
  }

  lemma {:induction false} InsertSorted<T>(x: T, s: seq<T>, key: T -> int)
    requires Sorted(s, key)
    ensures Sorted(Insert(x, s, key), key)
  {
    if s == [] || key(x) <= key(s[0]) {
    } else {
      InsertSorted(x, s[1..], key);
      InsertAbove(x, s[1..], key, key(s[0]));
    }
  }

  /** The sort orders its input by key and neither loses nor duplicates an element. */
  lemma {:induction false} SortByCorrect<T>(s: seq<T>, key: T -> int)
    ensures Sorted(SortBy(s, key), key)
    ensures multiset(SortBy(s, key)) == multiset(s)
  {
    if s == [] {
    } else {
      SortByCorrect(s[1..], key);
      InsertSorted(s[0], SortBy(s[1..], key), key);
      InsertMembers(s[0], SortBy(s[1..], key), key);
      assert s == [s[0]] + s[1..];
    }
  }

  /** Sorting a sorted sequence leaves it alone, ties included. */
  lemma {:induction false} SortByIdentity<T>(s: seq<T>, key: T -> int)
    requires Sorted(s, key)
    ensures SortBy(s, key) == s
  {
    if s != [] {
      SortByIdentity(s[1..], key);
      assert s == [s[0]] + s[1..];
    }
  }

  /** Membership is unchanged by sorting. */
  lemma SortByMembers<T>(s: seq<T>, key: T -> int)
    ensures forall x :: x in SortBy(s, key) <==> x in s
  {
    SortByCorrect(s, key);
    assert forall x :: x in SortBy(s, key) <==> x in multiset(SortBy(s, key));
    assert forall x :: x in s <==> x in multiset(s);
  }
}
