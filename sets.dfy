/** Cardinality facts about finite sets that the proofs rely on. */
module Sets {

  lemma {:induction false} SubsetCard<T>(a: set<T>, b: set<T>)
    requires a <= b
    ensures |a| <= |b|
    decreases |a|
  {
    if a != {} {
      var x :| x in a;
      SubsetCard(a - {x}, b - {x});
    }
  }

  lemma {:induction false} UnionCard<T>(a: set<T>, b: set<T>)
    ensures |a + b| + |a * b| == |a| + |b|
    decreases |a|
  {
    if a != {} {
      var x :| x in a;
      UnionCard(a - {x}, b);
      assert (a - {x}) + b == if x in b then a + b else (a + b) - {x};
      assert (a - {x}) * b == if x in b then (a * b) - {x} else a * b;
    }
  }
}
