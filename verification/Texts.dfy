/** The order in which the source compares texts, and splitting texts at a colon. */
module Texts {

  predicate IsDigit(c: char) {
    '0' <= c <= '9'
  }

  /** Comparison character by character; a proper prefix comes first. */
  predicate TextLess(a: string, b: string) {
    if b == [] then false
    else if a == [] then true
    else if a[0] != b[0] then a[0] < b[0]
    else TextLess(a[1..], b[1..])
  }

  /** Up to `n` the texts agree, and there the first one ends or has the lower character. */
  predicate DifferAt(a: string, b: string, n: nat) {
    n <= |a| && n < |b| && a[..n] == b[..n] && (n == |a| || a[n] < b[n])
  }

  lemma {:induction false} TextLessExact(a: string, b: string)
    ensures TextLess(a, b) <==> exists n :: DifferAt(a, b, n)
  {
    if a == [] {
      assert b != [] ==> DifferAt(a, b, 0);
    } else if b != [] {
      TextLessExact(a[1..], b[1..]);
      assert a[0] < b[0] ==> DifferAt(a, b, 0);
      if a[0] == b[0] {
        if n: nat :| DifferAt(a[1..], b[1..], n) {
          assert a[..n + 1] == [a[0]] + a[1..][..n] && b[..n + 1] == [b[0]] + b[1..][..n];
          assert DifferAt(a, b, n + 1);
        }
      }
      if n: nat :| DifferAt(a, b, n) {
        if n > 0 {
          assert a[..n][0] == b[..n][0];
          assert a[1..][..n - 1] == a[..n][1..] && b[1..][..n - 1] == b[..n][1..];
          assert DifferAt(a[1..], b[1..], n - 1);
        }
      }
    }
  }

  lemma TextLessStep(a: string, b: string)
    requires a != [] && b != []
    ensures TextLess(a, b) <==> a[0] < b[0] || (a[0] == b[0] && TextLess(a[1..], b[1..]))
  {
  }

  /** Of two texts exactly one comes first, unless they are the same. */
  lemma {:induction false} TextLessTotal(a: string, b: string)
    ensures (TextLess(a, b) && a != b && !TextLess(b, a)) || (a == b && !TextLess(b, a))
            || (TextLess(b, a) && a != b && !TextLess(a, b))
  {
    if a != [] && b != [] {
      TextLessTotal(a[1..], b[1..]);
      assert a == [a[0]] + a[1..] && b == [b[0]] + b[1..];
    }
  }

  lemma {:induction false} TextLessTransitive(a: string, b: string, c: string)
    requires TextLess(a, b) && TextLess(b, c)
    ensures TextLess(a, c)
  {
    if a != [] && a[0] == b[0] == c[0] {
      TextLessTransitive(a[1..], b[1..], c[1..]);
    }
  }

  predicate NoColon(s: string) {
    forall i :: 0 <= i < |s| ==> s[i] != ':'
  }

  /** A text is cut in only one way at its first colon. */
  lemma FirstColon(a: string, x: string, b: string, y: string)
    requires NoColon(a) && NoColon(b) && a + ":" + x == b + ":" + y
    ensures a == b && x == y
  {
    var s, t := a + ":" + x, b + ":" + y;
    assert s[|a|] == ':' && t[|b|] == ':';
    assert forall i :: 0 <= i < |a| ==> s[i] == a[i];
    assert forall i :: 0 <= i < |b| ==> t[i] == b[i];
    assert |a| == |b|;
    assert a == s[..|a|] && x == s[|a| + 1..] && b == t[..|b|] && y == t[|b| + 1..];
  }

  /** And in only one way at its last colon. */
  lemma LastColon(a: string, x: string, b: string, y: string)
    requires NoColon(x) && NoColon(y) && a + ":" + x == b + ":" + y
    ensures a == b && x == y
  {
    var s, t := a + ":" + x, b + ":" + y;
    assert s[|a|] == ':' && t[|b|] == ':';
    assert forall i :: |a| < i < |s| ==> s[i] == x[i - |a| - 1];
    assert forall i :: |b| < i < |t| ==> t[i] == y[i - |b| - 1];
    assert |a| == |b|;
    assert a == s[..|a|] && x == s[|a| + 1..] && b == t[..|b|] && y == t[|b| + 1..];
  }
}
