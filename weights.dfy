/** A termination measure for a set worklist over a ranked graph: every
    element contributes `b` to the power of its rank, so replacing an
    element by fewer than `b` elements of lower rank makes the sum smaller. */
module Weights {

  function Pow(b: nat, e: nat): (r: nat)
    ensures b >= 1 ==> r >= 1
  {
    if e == 0 then 1 else b * Pow(b, e - 1)
  }

  ghost function Weight<T>(w: set<T>, rank: map<T, nat>, b: nat): nat
    requires w <= rank.Keys
  {
    if w == {} then 0
    else
      var x :| x in w;
      Pow(b, rank[x]) + Weight(w - {x}, rank, b)
  }

  /** The sum does not depend on which element is taken out first. */
  lemma {:induction false} WeightRemove<T>(w: set<T>, x: T, rank: map<T, nat>, b: nat)
    requires w <= rank.Keys && x in w
    ensures Weight(w, rank, b) == Pow(b, rank[x]) + Weight(w - {x}, rank, b)
    decreases |w|
  {
    var y :| y in w && Weight(w, rank, b) == Pow(b, rank[y]) + Weight(w - {y}, rank, b);
    if y != x {
      WeightRemove(w - {y}, x, rank, b);
      WeightRemove(w - {x}, y, rank, b);
      assert w - {y} - {x} == w - {x} - {y};
    }
  }

  lemma {:induction false} WeightUnionLe<T>(a: set<T>, c: set<T>, rank: map<T, nat>, b: nat)
    requires a <= rank.Keys && c <= rank.Keys
    ensures Weight(a + c, rank, b) <= Weight(a, rank, b) + Weight(c, rank, b)
    decreases |c|
  {
    if c != {} {
      var z :| z in c;
      WeightRemove(c, z, rank, b);
      WeightUnionLe(a, c - {z}, rank, b);
      if z in a {
        assert a + c == a + (c - {z});
      } else {
        WeightRemove(a + c, z, rank, b);
        assert (a + c) - {z} == a + (c - {z});
      }
    } else {
      assert a + c == a;
    }
  }

  lemma {:induction false} PowMonotone(b: nat, e: nat, f: nat)
    requires b >= 1 && e <= f
    ensures Pow(b, e) <= Pow(b, f)
    decreases f
  {
    if e < f {
      PowMonotone(b, e, f - 1);
      var q := Pow(b, f - 1);
      assert Pow(b, f) == b * q;
      MulAtLeast(b, q);
    }
  }

  /** Each element of rank at most `q` weighs at most `b^q`. */
  lemma {:induction false} WeightBound<T>(w: set<T>, q: nat, rank: map<T, nat>, b: nat)
    requires w <= rank.Keys && b >= 1
    requires forall x :: x in w ==> rank[x] <= q
    ensures Weight(w, rank, b) <= |w| * Pow(b, q)
    decreases |w|
  {
    if w != {} {
      var x :| x in w;
      WeightRemove(w, x, rank, b);
      WeightBound(w - {x}, q, rank, b);
      PowMonotone(b, rank[x], q);
      MulPred(|w|, Pow(b, q));
    }
  }

  lemma {:induction false} MulAtLeast(b: nat, q: nat)
    requires b >= 1
    ensures b * q >= q
  {
    MulPred(b, q);
  }

  lemma MulPred(n: nat, p: nat)
    requires n >= 1
    ensures (n - 1) * p + p == n * p
  {
  }

  lemma MulLess(m: nat, n: nat, p: nat)
    requires m < n && p >= 1
    ensures m * p < n * p
  {
    MulPred(n - m, p);
  }

  /** Fewer than `b` elements of rank below `r` weigh less than one element
      of rank `r`. */
  lemma WeightBelow<T>(w: set<T>, r: nat, rank: map<T, nat>, b: nat)
    requires w <= rank.Keys && |w| < b
    requires forall x :: x in w ==> rank[x] < r
    ensures Weight(w, rank, b) < Pow(b, r)
  {
    if w == {} {
    } else {
      var x :| x in w;
      assert r >= 1;
      WeightBound(w, r - 1, rank, b);
      MulLess(|w|, b, Pow(b, r - 1));
      assert Pow(b, r) == b * Pow(b, r - 1);
    }
  }
}
