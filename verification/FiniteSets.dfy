/** Sizes of finite sets. */
module FiniteSets {

  lemma {:induction false} SubsetSize<T>(a: set<T>, b: set<T>)
    requires a <= b
    ensures |a| <= |b|
  {
    if a != {} {
      var x :| x in a;
      SubsetSize(a - {x}, b - {x});
    }
  }

  /** Sets that differ at `x` alone differ in size by whether they have it. */
  lemma DifferAtOne<T>(a: set<T>, b: set<T>, x: T)
    requires forall y :: y != x ==> (y in a <==> y in b)
    ensures |a| + (if x in b then 1 else 0) == |b| + if x in a then 1 else 0
  {
    assert a - {x} == b - {x};
    assert |a| == |a - {x}| + if x in a then 1 else 0;
    assert |b| == |b - {x}| + if x in b then 1 else 0;
  }
}
