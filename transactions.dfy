/** Transactions as the mining code sees them: a map from each gene to the
    set of terms it is annotated to. The support of an itemset is the number
    of genes whose terms include every item. */
module Transactions {
  import Sets
  import Ordering

  type TransactionMap = map<string, set<string>>

  /** `terms` holds every item of `itemset`. */
  predicate HasAll(terms: set<string>, itemset: seq<string>) {
    forall k :: 0 <= k < |itemset| ==> itemset[k] in terms
  }

  /** The genes whose terms hold every item. */
  function Holding(t: TransactionMap, itemset: seq<string>): set<string> {
    set g | g in t && HasAll(t[g], itemset)
  }

  /** The support count of `itemset`. */
  function SupportOf(t: TransactionMap, itemset: seq<string>): nat {
    |Holding(t, itemset)|
  }

  /** The counting loop of `support`: for each transaction, a flag per item
      records whether the transaction's terms contain it. */
  method Support(t: TransactionMap, itemset: seq<string>) returns (count: nat)
    ensures count == SupportOf(t, itemset)
  {
    count := 0;
    var rest := t.Keys;
    ghost var done: set<string> := {};
    ghost var holding: set<string> := {};
    while rest != {}
      invariant rest + done == t.Keys && rest !! done
      invariant holding == set g | g in done && HasAll(t[g], itemset)
      invariant count == |holding|
      decreases rest
    {
      var trans :| trans in rest;
      var foundBig := true;
      for k := 0 to |itemset|
        invariant foundBig <==> forall m :: 0 <= m < k ==> itemset[m] in t[trans]
      {
        var found := false;
        var terms := t[trans];
        while terms != {}
          invariant terms <= t[trans]
          invariant found <==> itemset[k] in t[trans] - terms
          decreases terms
        {
          var term :| term in terms;
          if itemset[k] == term {
            found := true;
          }
          terms := terms - {term};
        }
        if !found {
          foundBig := false;
        }
      }
      if foundBig {
        count := count + 1;
        holding := holding + {trans};
      }
      rest := rest - {trans};
      done := done + {trans};
    }
    assert done == t.Keys;
  }

  /** The count lies between 0 and the number of transactions. */
  lemma SupportBounded(t: TransactionMap, itemset: seq<string>)
    ensures 0 <= SupportOf(t, itemset) <= |t|
  {
    Sets.SubsetCard(Holding(t, itemset), t.Keys);
  }

  /** The empty itemset is held by every transaction. */
  lemma SupportOfEmpty(t: TransactionMap)
    ensures SupportOf(t, []) == |t|
  {
    assert Holding(t, []) == t.Keys;
  }

  /** Anti-monotonicity: an itemset with more items is held by no more
      transactions. */
  lemma SupportAntiMonotone(t: TransactionMap, small: seq<string>, big: seq<string>)
    requires forall x :: x in small ==> x in big
    ensures SupportOf(t, big) <= SupportOf(t, small)
  {
    assert Holding(t, big) <= Holding(t, small) by {
      forall g | g in Holding(t, big) ensures g in Holding(t, small) {
        assert forall k :: 0 <= k < |small| ==> small[k] in big;
      }
    }
    Sets.SubsetCard(Holding(t, big), Holding(t, small));
  }

  /** Support depends only on the items, not on their order or repetition. */
  lemma SupportOfSameItems(t: TransactionMap, a: seq<string>, b: seq<string>)
    requires Ordering.ToSet(a) == Ordering.ToSet(b)
    ensures SupportOf(t, a) == SupportOf(t, b)
  {
    assert forall x :: x in a <==> x in Ordering.ToSet(a);
    SupportAntiMonotone(t, a, b);
    SupportAntiMonotone(t, b, a);
  }
}
