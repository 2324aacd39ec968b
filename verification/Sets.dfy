/** Sizes of finite sets. */
module Sets {
  lemma SubsetSize<T>(a: set<T>, b: set<T>)
    requires a <= b
    ensures |a| <= |b|
  {
    assert b == a + (b - a);
  }

  /** A set has subsets of every smaller size. */
  lemma {:induction false} SubsetOfSize<T>(a: set<T>, n: nat) returns (b: set<T>)
    requires n <= |a|
    ensures b <= a && |b| == n
    decreases |a|
  {
    if n == |a| {
      b := a;
    } else {
      var x :| x in a;
      b := SubsetOfSize(a - {x}, n);
    }
  }

  /** The elements in some order, each once. */
  lemma {:induction false} Listed<T>(a: set<T>) returns (q: seq<T>)
    ensures |q| == |a| && (forall x :: x in q <==> x in a)
    ensures forall i, j :: 0 <= i < j < |q| ==> q[i] != q[j]
    decreases |a|
  {
    if a == {} {
      q := [];
    } else {
      var x :| x in a;
      var rest := Listed(a - {x});
      q := rest + [x];
    }
  }
}
