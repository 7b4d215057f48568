/** Association extraction: every frequent itemset yields its items in order
    and reversed; an association is kept when its confidence and the
    coverage of its left item both exceed their thresholds. */
module Associations {
  import opened Results
  import opened Transactions
  import Ordering
  import Text
  import Numeric
  import Sets

  /** `s[::-1]` */
  function Reverse<T>(s: seq<T>): (r: seq<T>)
    ensures |r| == |s| && forall i :: 0 <= i < |s| ==> r[i] == s[|s| - 1 - i]
  {
    if |s| == 0 then [] else Reverse(s[1..]) + [s[0]]
  }

  lemma {:induction false} ReverseReverse<T>(s: seq<T>)
    ensures Reverse(Reverse(s)) == s
  {
    assert forall i :: 0 <= i < |s| ==> Reverse(Reverse(s))[i] == s[i];
  }

  /** The associations of `freq` in the order `all_associations` builds
      them: each itemset, then its reverse. */
  ghost function Expanded(freq: seq<seq<string>>): (r: seq<seq<string>>)
    ensures |r| == 2 * |freq|
  {
    if |freq| == 0 then [] else [freq[0], Reverse(freq[0])] + Expanded(freq[1..])
  }

  lemma {:induction false} ExpandedAt(freq: seq<seq<string>>, i: nat)
    requires i < |freq|
    ensures Expanded(freq)[2 * i] == freq[i] && Expanded(freq)[2 * i + 1] == Reverse(freq[i])
  {
    if i > 0 {
      ExpandedAt(freq[1..], i - 1);
    }
  }

  /** `all_associations`: the items of each itemset copied in iteration
      order, followed at once by the reversed copy. */
  method AllAssociations(freq: seq<seq<string>>) returns (associations: seq<seq<string>>)
    ensures |associations| == 2 * |freq|
    ensures forall i :: 0 <= i < |freq| ==>
      associations[2 * i] == freq[i] && associations[2 * i + 1] == Reverse(freq[i])
    ensures associations == Expanded(freq)
  {
    associations := [];
    for n := 0 to |freq|
      invariant |associations| == 2 * n
      invariant forall i :: 0 <= i < n ==>
        associations[2 * i] == freq[i] && associations[2 * i + 1] == Reverse(freq[i])
    {
      var itemset := freq[n];
      var association := [];
      for m := 0 to |itemset|
        invariant association == itemset[..m]
      {
        association := association + [itemset[m]];
      }
      assert association == itemset;
      associations := associations + [association, Reverse(association)];
    }
    forall k | 0 <= k < |associations| ensures associations[k] == Expanded(freq)[k] {
      ExpandedAt(freq, k / 2);
    }
  }

  /** `confidence`: the fraction of transactions that hold every item of the
      association, counted by the same loop as `support`. */
  method Confidence(allGt: TransactionMap, association: seq<string>) returns (r: Result<real>)
    ensures r.Err? <==> |allGt| == 0
    ensures r.Err? ==> r.error == ZeroDivisionError
    ensures r.Ok? ==> 0.0 <= r.value <= 1.0
    ensures r.Ok? ==> r.value == (SupportOf(allGt, association) as real) / (|allGt| as real)
  {
    var confidenceCount := Support(allGt, association);
    if |allGt| == 0 {
      return Err(ZeroDivisionError);
    }
    SupportBounded(allGt, association);
    r := Ok(confidenceCount as real / |allGt| as real);
  }

  /** Both orderings of a pair have the same confidence. */
  lemma ConfidenceSymmetric(allGt: TransactionMap, a: string, b: string)
    ensures SupportOf(allGt, [a, b]) == SupportOf(allGt, Reverse([a, b]))
  {
    assert Reverse([a, b]) == [b, a];
    assert Ordering.ToSet([a, b]) == Ordering.ToSet([b, a]);
    SupportOfSameItems(allGt, [a, b], [b, a]);
  }

  /** The keys of `allGt` in which `left` occurs as a substring: iterating a
      dict visits its keys, and `in` on two strings tests for a substring. */
  function Covering(left: string, allGt: TransactionMap): set<string> {
    set g | g in allGt && Text.Contains(g, left)
  }

  /** The counting loop of `coverage`. */
  method CountCovering(left: string, allGt: TransactionMap) returns (count: nat)
    ensures count == |Covering(left, allGt)|
  {
    count := 0;
    var rest := allGt.Keys;
    ghost var done: set<string> := {};
    ghost var covered: set<string> := {};
    while rest != {}
      invariant rest + done == allGt.Keys && rest !! done
      invariant count == |covered|
      invariant forall g :: g in covered <==> g in done && Text.Contains(g, left)
      decreases rest
    {
      var itemset :| itemset in rest;
      if Text.Contains(itemset, left) {
        count := count + 1;
        covered := covered + {itemset};
      }
      rest := rest - {itemset};
      done := done + {itemset};
    }
    assert covered == Covering(left, allGt);
  }

  /** `coverage`: the number of keys of `allGt` holding `left`, divided by
      the number of keys. */
  method Coverage(left: string, allGt: TransactionMap) returns (r: Result<real>)
    ensures r.Err? <==> |allGt| == 0
    ensures r.Err? ==> r.error == ZeroDivisionError
    ensures r.Ok? ==> 0.0 <= r.value <= 1.0
    ensures r.Ok? ==> r.value == (|Covering(left, allGt)| as real) / (|allGt| as real)
  {
    var count := CountCovering(left, allGt);
    if |allGt| == 0 {
      return Err(ZeroDivisionError);
    }
    Sets.SubsetCard(Covering(left, allGt), allGt.Keys);
    Numeric.FractionInUnit(count, |allGt|);
    r := Ok(count as real / |allGt| as real);
  }

  /** An association passes both strict thresholds (an empty one raises
      `IndexError` before the coverage test, so it never passes). */
  ghost predicate Kept(allGt: TransactionMap, a: seq<string>, confThreshold: int, minCoverage: real)
    requires |allGt| > 0
  {
    && |a| > 0
    && (SupportOf(allGt, a) as real) / (|allGt| as real) > confThreshold as real
    && (|Covering(a[0], allGt)| as real) / (|allGt| as real) > minCoverage
  }

  /** The associations that pass, in their original order. */
  ghost function Filtered(s: seq<seq<string>>, allGt: TransactionMap, confThreshold: int, minCoverage: real): seq<seq<string>>
    requires |allGt| > 0
  {
    if |s| == 0 then []
    else (if Kept(allGt, s[0], confThreshold, minCoverage) then [s[0]] else [])
         + Filtered(s[1..], allGt, confThreshold, minCoverage)
  }

  /** `Filtered` keeps exactly the passing elements, in their order. */
  lemma {:induction false} FilteredIsSubsequence(s: seq<seq<string>>, allGt: TransactionMap, confThreshold: int, minCoverage: real)
    requires |allGt| > 0
    ensures Ordering.IsSubsequence(Filtered(s, allGt, confThreshold, minCoverage), s)
    ensures forall a :: a in Filtered(s, allGt, confThreshold, minCoverage) <==>
      a in s && Kept(allGt, a, confThreshold, minCoverage)
  {
    if |s| > 0 {
      FilteredIsSubsequence(s[1..], allGt, confThreshold, minCoverage);
      var rest := Filtered(s[1..], allGt, confThreshold, minCoverage);
      if Kept(allGt, s[0], confThreshold, minCoverage) {
        assert Filtered(s, allGt, confThreshold, minCoverage) == [s[0]] + rest;
        assert ([s[0]] + rest)[1..] == rest;
      } else {
        assert Filtered(s, allGt, confThreshold, minCoverage) == rest;
        SubsequenceOfTail(rest, s);
      }
      assert forall a :: a in s <==> a == s[0] || a in s[1..];
    }
  }

  /** A threshold of at least one can never be exceeded by a confidence,
      which is a fraction: then nothing is kept. */
  lemma {:induction false} FilteredEmptyAboveOne(s: seq<seq<string>>, allGt: TransactionMap, confThreshold: int, minCoverage: real)
    requires |allGt| > 0
    requires confThreshold >= 1
    ensures Filtered(s, allGt, confThreshold, minCoverage) == []
  {
    if |s| > 0 {
      SupportBounded(allGt, s[0]);
      assert !Kept(allGt, s[0], confThreshold, minCoverage) by {
        assert (SupportOf(allGt, s[0]) as real) / (|allGt| as real) <= 1.0;
      }
      FilteredEmptyAboveOne(s[1..], allGt, confThreshold, minCoverage);
    }
  }

  /** The loop of `create_associations` over the expanded associations:
      the first association raises `ZeroDivisionError` when there are no
      transactions, and the first empty one raises `IndexError` when its
      first item is looked up for the coverage. */
  method FilterAssociations(allGt: TransactionMap, associations: seq<seq<string>>, threshold: int, minCoverage: real)
    returns (r: Result<seq<seq<string>>>)
    ensures |associations| == 0 ==> r == Ok([])
    ensures r.Err? <==> |associations| > 0 && (|allGt| == 0 || exists k :: 0 <= k < |associations| && |associations[k]| == 0)
    ensures |associations| > 0 && |allGt| == 0 ==> r == Err(ZeroDivisionError)
    ensures r.Err? && |allGt| > 0 ==> r == Err(IndexError)
    ensures r.Ok? && |associations| > 0 ==> r.value == Filtered(associations, allGt, threshold, minCoverage)
  {
    var finalAssociations := [];
    for n := 0 to |associations|
      invariant n == 0 ==> finalAssociations == []
      invariant n > 0 ==> |allGt| > 0
      invariant n > 0 ==> finalAssociations == Filtered(associations[..n], allGt, threshold, minCoverage)
      invariant forall k :: 0 <= k < n ==> |associations[k]| > 0
    {
      var associate := associations[n];
      var curConfidence :- Confidence(allGt, associate);
      if |associate| == 0 {
        return Err(IndexError);
      }
      var coverage := Coverage(associate[0], allGt);
      var curCoverage := coverage.value;
      FilteredAppend(associations[..n], associate, allGt, threshold, minCoverage);
      assert associations[..n + 1] == associations[..n] + [associate];
      if curConfidence > threshold as real && curCoverage > minCoverage {
        finalAssociations := finalAssociations + [associate];
      }
    }
    assert associations[..|associations|] == associations;
    r := Ok(finalAssociations);
  }

  /** `create_associations`: the confidence threshold is
      `ceil(min_confidence * len(freq_itemsets))`; for each association the
      confidence and then the coverage of its first item are computed, and
      it is kept when both exceed their thresholds. */
  method CreateAssociations(allGt: TransactionMap, freq: seq<seq<string>>, minConfidence: real, minCoverage: real)
    returns (r: Result<seq<seq<string>>>)
    ensures |freq| == 0 ==> r == Ok([])
    ensures |freq| > 0 ==> (r.Err? <==> |allGt| == 0 || exists i :: 0 <= i < |freq| && |freq[i]| == 0)
    ensures |freq| > 0 && |allGt| == 0 ==> r == Err(ZeroDivisionError)
    ensures r.Ok? && |freq| > 0 ==>
      r.value == Filtered(Expanded(freq), allGt, Numeric.Ceil(minConfidence * |freq| as real), minCoverage)
    ensures r.Ok? && |freq| > 0 && minConfidence > 0.0 ==> r.value == []
  {
    var associations := AllAssociations(freq);
    var threshold := Numeric.Ceil(minConfidence * |freq| as real);
    r := FilterAssociations(allGt, associations, threshold, minCoverage);
    if |freq| > 0 {
      EmptyAssociationIff(freq, associations);
      if r.Ok? && minConfidence > 0.0 {
        Numeric.CeilPositive(minConfidence * |freq| as real);
        FilteredEmptyAboveOne(associations, allGt, threshold, minCoverage);
      }
    }
  }

  lemma EmptyAssociationIff(freq: seq<seq<string>>, associations: seq<seq<string>>)
    requires associations == Expanded(freq)
    ensures (exists k :: 0 <= k < |associations| && |associations[k]| == 0)
        <==> (exists i :: 0 <= i < |freq| && |freq[i]| == 0)
  {
    if exists k :: 0 <= k < |associations| && |associations[k]| == 0 {
      var k :| 0 <= k < |associations| && |associations[k]| == 0;
      ExpandedAt(freq, k / 2);
      assert |freq[k / 2]| == 0;
    }
    if exists i :: 0 <= i < |freq| && |freq[i]| == 0 {
      var i :| 0 <= i < |freq| && |freq[i]| == 0;
      ExpandedAt(freq, i);
      assert |associations[2 * i]| == 0;
    }
  }

  lemma {:induction false} SubsequenceOfTail<T>(c: seq<T>, s: seq<T>)
    requires |s| > 0 && Ordering.IsSubsequence(c, s[1..])
    ensures Ordering.IsSubsequence(c, s)
  {
  }

  lemma {:induction false} FilteredAppend(s: seq<seq<string>>, a: seq<string>, allGt: TransactionMap, confThreshold: int, minCoverage: real)
    requires |allGt| > 0
    ensures Filtered(s + [a], allGt, confThreshold, minCoverage)
      == Filtered(s, allGt, confThreshold, minCoverage) + (if Kept(allGt, a, confThreshold, minCoverage) then [a] else [])
  {
    if |s| > 0 {
      assert (s + [a])[1..] == s[1..] + [a];
      FilteredAppend(s[1..], a, allGt, confThreshold, minCoverage);
    }
  }
}
