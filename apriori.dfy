/** The weighted Apriori search: support and weighted support of itemsets,
    the selective join of frequent itemsets, Apriori pruning, and the
    level-by-level construction of the frequent-itemset table, which stops
    after itemsets of size two. */
module WeightedApriori {
  import opened Results
  import opened Ordering
  import opened Transactions
  import Numeric
  import Sets

  /** An itemset as the source stores it: a tuple of term ids. */
  type Itemset = seq<string>

  // ----- weighted support -----

  /** The two leading items have a specificity value. */
  predicate Weighable(itemset: Itemset, spec: map<string, real>) {
    |itemset| >= 2 && itemset[0] in spec && itemset[1] in spec
  }

  /** The support count scaled by the harmonic mean of the specificities of
      the two leading items; zero when the specificities sum to zero. */
  function WeightedSupportOf(t: TransactionMap, itemset: Itemset, spec: map<string, real>): (w: real)
    requires Weighable(itemset, spec)
  {
    var sa, sb := spec[itemset[0]], spec[itemset[1]];
    if sa + sb != 0.0 then 2.0 * sa * sb * (SupportOf(t, itemset) as real) / (sa + sb) else 0.0
  }

  /** `weighted_support`: the count of `support`, then the lookups of the
      first two items' specificities, each of which can fail. */
  method WeightedSupport(t: TransactionMap, itemset: Itemset, spec: map<string, real>) returns (r: Result<real>)
    ensures r.Err? <==> !Weighable(itemset, spec)
    ensures r.Err? ==> r.error == (if |itemset| == 0 || (itemset[0] in spec && |itemset| == 1) then IndexError else KeyError)
    ensures r.Ok? ==> r.value == WeightedSupportOf(t, itemset, spec)
    ensures r.Ok? ==> var sa, sb := spec[itemset[0]], spec[itemset[1]];
      && (sa + sb == 0.0 ==> r.value == 0.0)
      && (sa + sb != 0.0 ==> r.value * (sa + sb) == 2.0 * sa * sb * (SupportOf(t, itemset) as real))
  {
    var count := Support(t, itemset);
    if |itemset| == 0 {
      return Err(IndexError);
    }
    if itemset[0] !in spec {
      return Err(KeyError);
    }
    if |itemset| == 1 {
      return Err(IndexError);
    }
    if itemset[1] !in spec {
      return Err(KeyError);
    }
    var sa, sb := spec[itemset[0]], spec[itemset[1]];
    var weight := 2.0 * sa * sb * (count as real);
    if sa + sb != 0.0 {
      weight := weight / (sa + sb);
    } else {
      weight := 0.0;
    }
    r := Ok(weight);
  }

  /** Weighted support does not depend on the order of the pair. */
  lemma WeightedSupportSymmetric(t: TransactionMap, a: string, b: string, spec: map<string, real>)
    requires a in spec && b in spec
    ensures WeightedSupportOf(t, [a, b], spec) == WeightedSupportOf(t, [b, a], spec)
  {
    assert ToSet([a, b]) == ToSet([b, a]);
    SupportOfSameItems(t, [a, b], [b, a]);
  }

  // ----- joining level one -----

  /** `tuple(sorted((a, b)))` */
  function SortedPair(a: string, b: string): Itemset {
    if StrLess(a, b) then [a, b] else [b, a]
  }

  /** `p` is an ascending pair of two items of `items`. */
  predicate IsAscendingPairOf(p: Itemset, items: seq<string>) {
    |p| == 2 && p[0] in items && p[1] in items && StrLess(p[0], p[1])
  }

  /** The sorted pairs built from a first item in `firsts` and a different
      second item in `seconds`. */
  ghost function Joins(firsts: seq<string>, seconds: seq<string>): set<Itemset> {
    set a, b | a in firsts && b in seconds && a != b :: SortedPair(a, b)
  }

  lemma JoinsExtendSecond(x: string, seconds: seq<string>, y: string)
    ensures Joins([x], seconds + [y]) == Joins([x], seconds) + (if x != y then {SortedPair(x, y)} else {})
  {
    var lhs, rhs := Joins([x], seconds + [y]), Joins([x], seconds) + (if x != y then {SortedPair(x, y)} else {});
    forall p | p in lhs ensures p in rhs {
      var a, b :| a in [x] && b in seconds + [y] && a != b && p == SortedPair(a, b);
      if b != y {
        assert b in seconds;
      }
    }
  }

  lemma JoinsExtendFirst(firsts: seq<string>, x: string, seconds: seq<string>)
    ensures Joins(firsts + [x], seconds) == Joins(firsts, seconds) + Joins([x], seconds)
  {
    var lhs, rhs := Joins(firsts + [x], seconds), Joins(firsts, seconds) + Joins([x], seconds);
    forall p | p in lhs ensures p in rhs {
      var a, b :| a in firsts + [x] && b in seconds && a != b && p == SortedPair(a, b);
      if a != x {
        assert a in firsts;
      }
    }
    forall p | p in rhs ensures p in lhs {
      if p in Joins(firsts, seconds) {
        var a, b :| a in firsts && b in seconds && a != b && p == SortedPair(a, b);
        assert a in firsts + [x];
      } else {
        var a, b :| a in [x] && b in seconds && a != b && p == SortedPair(a, b);
        assert a in firsts + [x];
      }
    }
  }

  /** Joining a list with itself gives exactly its ascending pairs. */
  lemma JoinsSelf(items: seq<string>)
    ensures forall p :: p in Joins(items, items) <==> IsAscendingPairOf(p, items)
  {
    StrLessIsStrictTotal();
    forall p | IsAscendingPairOf(p, items) ensures p in Joins(items, items) {
      LexIrreflexive(p[0], CharLess);
      assert p == SortedPair(p[0], p[1]);
    }
  }

  /** The size-2 branch of `generate_selectively_joined_itemsets`: every
      ordered pair of distinct level-1 items, sorted, kept once, and the
      resulting set sorted. */
  method JoinLevelOne(level1: seq<string>) returns (joined: seq<Itemset>)
    ensures Ascending(joined, TupleLess)
    ensures forall p :: p in joined <==> IsAscendingPairOf(p, level1)
  {
    var seen: set<Itemset> := {};
    var joinedSet: set<Itemset> := {};
    for i := 0 to |level1|
      invariant seen == joinedSet == Joins(level1[..i], level1)
    {
      var item1 := level1[i];
      seen, joinedSet := JoinPairsWith(item1, level1, seen, joinedSet);
      JoinsExtendFirst(level1[..i], item1, level1);
      assert level1[..i + 1] == level1[..i] + [item1];
    }
    assert level1[..|level1|] == level1;
    JoinsSelf(level1);
    TupleLessIsStrictTotal();
    joined := SortSet(joinedSet, TupleLess);
  }

  /** The inner loop of the size-2 branch: `item1` is paired with every
      level-1 item. */
  method JoinPairsWith(item1: string, level1: seq<string>, seen0: set<Itemset>, joined0: set<Itemset>)
    returns (seen: set<Itemset>, joinedSet: set<Itemset>)
    requires seen0 == joined0
    ensures seen == joinedSet == joined0 + Joins([item1], level1)
  {
    seen, joinedSet := seen0, joined0;
    for j := 0 to |level1|
      invariant seen == joinedSet == joined0 + Joins([item1], level1[..j])
    {
      var item2 := level1[j];
      var pair := SortedPair(item1, item2);
      JoinsExtendSecond(item1, level1[..j], item2);
      assert level1[..j + 1] == level1[..j] + [item2];
      if item1 != item2 && pair !in seen {
        joinedSet := joinedSet + {pair};
        seen := seen + {pair};
      }
    }
    assert level1[..|level1|] == level1;
  }

  // ----- the frequent-itemset table -----

  /** The table `frequent_itemsets`: level 1 holds single items, levels 2
      and above hold sets of itemsets. Level 0, which the source fills with
      the empty itemset alone, is supplied by `TupleLevel`. */
  datatype FrequentTable = FrequentTable(level1: seq<string>, higher: map<int, set<Itemset>>)

  /** The lookup `frequent_itemsets[j]` for a level that holds itemsets. */
  function TupleLevel(table: FrequentTable, j: int): (r: Option<set<Itemset>>)
    ensures j == 0 ==> r == Some({[]})
    ensures j != 0 && j != 1 ==> (r.Some? <==> j in table.higher)
  {
    if j == 0 then Some({[]})
    else if j != 1 && j in table.higher then Some(table.higher[j])
    else None
  }

  // ----- joining itemsets of size k - 1 > 1 -----

  /** Two itemsets are joined at size `k` when they share at least `k - 2`
      items but not exactly `k - 1`. */
  predicate Joinable(a: Itemset, b: Itemset, k: int) {
    var common := |ToSet(a) * ToSet(b)|;
    common >= k - 2 && common != k - 1
  }

  /** `t` is the sorted union of two joinable itemsets of `prev`. */
  ghost predicate JoinOf(t: Itemset, prev: set<Itemset>, k: int) {
    Ascending(t, StrLess)
    && exists a, b :: a in prev && b in prev && Joinable(a, b, k) && ToSet(t) == ToSet(a) + ToSet(b)
  }

  /** Some member of `s` has exactly the items of `a` and `b`. */
  ghost predicate UnionIn(a: Itemset, b: Itemset, s: set<Itemset>) {
    exists t :: t in s && ToSet(t) == ToSet(a) + ToSet(b)
  }

  /** The branch of `generate_selectively_joined_itemsets` for a previous
      level of itemsets: every pair of itemsets that share enough items is
      replaced by the sorted tuple of their union, kept once. */
  method JoinLevel(prev: set<Itemset>, k: int) returns (joined: seq<Itemset>)
    ensures Ascending(joined, TupleLess)
    ensures forall t :: t in joined <==> JoinOf(t, prev, k)
  {
    var seen: set<Itemset> := {};
    var joinedSet: set<Itemset> := {};
    var outer := prev;
    while outer != {}
      invariant outer <= prev && seen == joinedSet
      invariant forall t :: t in joinedSet ==> JoinOf(t, prev, k)
      invariant forall a, b :: a in prev - outer && b in prev && Joinable(a, b, k) ==> UnionIn(a, b, joinedSet)
      decreases outer
    {
      var item1 :| item1 in outer;
      ghost var before := joinedSet;
      seen, joinedSet := JoinWith(item1, prev, k, seen, joinedSet);
      forall a, b | a in prev - (outer - {item1}) && b in prev && Joinable(a, b, k)
        ensures UnionIn(a, b, joinedSet)
      {
        if a != item1 {
          var t :| t in before && ToSet(t) == ToSet(a) + ToSet(b);
          assert t in joinedSet;
        }
      }
      outer := outer - {item1};
    }
    StrLessIsStrictTotal();
    forall t | JoinOf(t, prev, k) ensures t in joinedSet {
      var a, b :| a in prev && b in prev && Joinable(a, b, k) && ToSet(t) == ToSet(a) + ToSet(b);
      assert UnionIn(a, b, joinedSet);
      var t' :| t' in joinedSet && ToSet(t') == ToSet(a) + ToSet(b);
      AscendingUnique(t, t', StrLess);
    }
    TupleLessIsStrictTotal();
    joined := SortSet(joinedSet, TupleLess);
  }

  /** The inner loop of `generate_selectively_joined_itemsets` for one
      itemset `item1`: it is joined with every itemset of `prev` it shares
      enough items with. */
  method JoinWith(item1: Itemset, prev: set<Itemset>, k: int, seen0: set<Itemset>, joined0: set<Itemset>)
    returns (seen: set<Itemset>, joinedSet: set<Itemset>)
    requires item1 in prev && seen0 == joined0
    ensures seen == joinedSet && joined0 <= joinedSet
    ensures forall t :: t in joinedSet - joined0 ==> JoinOf(t, prev, k)
    ensures forall b :: b in prev && Joinable(item1, b, k) ==> UnionIn(item1, b, joinedSet)
  {
    seen, joinedSet := seen0, joined0;
    var inner := prev;
    while inner != {}
      invariant inner <= prev && seen == joinedSet && joined0 <= joinedSet
      invariant forall t :: t in joinedSet - joined0 ==> JoinOf(t, prev, k)
      invariant forall b :: b in prev - inner && Joinable(item1, b, k) ==> UnionIn(item1, b, joinedSet)
      decreases inner
    {
      var item2 :| item2 in inner;
      var joinable, tuple := JoinPair(item1, item2, prev, k);
      if joinable {
        if tuple !in seen {
          seen := seen + {tuple};
          joinedSet := joinedSet + {tuple};
        }
        assert UnionIn(item1, item2, joinedSet);
      }
      inner := inner - {item2};
    }
  }

  /** The test and the join for one pair of itemsets. */
  method JoinPair(item1: Itemset, item2: Itemset, prev: set<Itemset>, k: int)
    returns (joinable: bool, tuple: Itemset)
    requires item1 in prev && item2 in prev
    ensures joinable == Joinable(item1, item2, k)
    ensures joinable ==> JoinOf(tuple, prev, k) && ToSet(tuple) == ToSet(item1) + ToSet(item2)
  {
    var listA, listB := ToSet(item1), ToSet(item2);
    var intersection := listA * listB;
    var union := listA + listB;
    joinable := |intersection| >= k - 2 && |intersection| != k - 1;
    tuple := [];
    if joinable {
      StrLessIsStrictTotal();
      tuple := SortSet(union, StrLess);
    }
  }

  /** When the previous level holds ascending itemsets of `k - 1` items,
      every joined itemset has exactly `k` items. */
  lemma JoinedSize(prev: set<Itemset>, k: int, t: Itemset)
    requires k >= 2
    requires forall a :: a in prev ==> Ascending(a, StrLess) && |a| == k - 1
    requires JoinOf(t, prev, k)
    ensures |t| == k
  {
    StrLessIsStrictTotal();
    var a, b :| a in prev && b in prev && Joinable(a, b, k) && ToSet(t) == ToSet(a) + ToSet(b);
    AscendingCard(a, StrLess);
    AscendingCard(b, StrLess);
    AscendingCard(t, StrLess);
    Sets.SubsetCard(ToSet(a) * ToSet(b), ToSet(a));
    Sets.UnionCard(ToSet(a), ToSet(b));
  }

  /** `generate_selectively_joined_itemsets`: the branch is chosen by the
      size; a previous level missing from the table fails the lookup. */
  method GenerateSelectivelyJoinedItemsets(table: FrequentTable, k: int) returns (r: Result<seq<Itemset>>)
    ensures k == 2 ==> (r.Ok? && Ascending(r.value, TupleLess)
      && forall p :: p in r.value <==> IsAscendingPairOf(p, table.level1))
    ensures k != 2 ==> (r.Ok? <==> TupleLevel(table, k - 1).Some?)
    ensures k != 2 && r.Ok? ==> (Ascending(r.value, TupleLess)
      && forall t :: t in r.value <==> JoinOf(t, TupleLevel(table, k - 1).value, k))
    ensures r.Err? ==> r.error == KeyError
  {
    if k - 1 == 1 {
      var joined := JoinLevelOne(table.level1);
      return Ok(joined);
    }
    match TupleLevel(table, k - 1)
    case None =>
      return Err(KeyError);
    case Some(prev) =>
      var joined := JoinLevel(prev, k);
      return Ok(joined);
  }

  // ----- Apriori pruning -----

  /** `[x] + c` for every `c` of `cs`, in order. */
  function Prefixed<T>(x: T, cs: seq<seq<T>>): (r: seq<seq<T>>)
    ensures |r| == |cs| && forall i :: 0 <= i < |cs| ==> r[i] == [x] + cs[i]
  {
    if |cs| == 0 then [] else [[x] + cs[0]] + Prefixed(x, cs[1..])
  }

  /** `itertools.combinations(s, r)`: the length-`r` selections of positions
      of `s`, in lexicographic order of positions. */
  function Combinations<T>(s: seq<T>, r: nat): seq<seq<T>>
    decreases |s|
  {
    if r == 0 then [[]]
    else if |s| < r then []
    else Prefixed(s[0], Combinations(s[1..], r - 1)) + Combinations(s[1..], r)
  }

  lemma {:induction false} SubsequenceShorter<T>(c: seq<T>, s: seq<T>)
    requires IsSubsequence(c, s)
    ensures |c| <= |s|
    decreases |s|
  {
    if |c| > 0 {
      if c[0] == s[0] && IsSubsequence(c[1..], s[1..]) {
        SubsequenceShorter(c[1..], s[1..]);
      } else {
        SubsequenceShorter(c, s[1..]);
      }
    }
  }

  /** The members of `Prefixed(x, cs)` are `x` followed by a member of `cs`. */
  lemma PrefixedMember<T>(x: T, cs: seq<seq<T>>, c: seq<T>)
    ensures c in Prefixed(x, cs) <==> |c| > 0 && c[0] == x && c[1..] in cs
  {
    var front := Prefixed(x, cs);
    if c in front {
      var i :| 0 <= i < |front| && front[i] == c;
      assert c[1..] == cs[i];
    }
    if |c| > 0 && c[0] == x && c[1..] in cs {
      var i :| 0 <= i < |cs| && cs[i] == c[1..];
      assert front[i] == c;
    }
  }

  /** The combinations are exactly the subsequences of the given length. */
  lemma {:induction false} CombinationMember<T>(s: seq<T>, r: nat, c: seq<T>)
    ensures c in Combinations(s, r) <==> |c| == r && IsSubsequence(c, s)
    decreases |s|
  {
    if r > 0 && |s| >= r {
      var front, back := Prefixed(s[0], Combinations(s[1..], r - 1)), Combinations(s[1..], r);
      assert Combinations(s, r) == front + back;
      CombinationMember(s[1..], r, c);
      PrefixedMember(s[0], Combinations(s[1..], r - 1), c);
      if |c| > 0 {
        CombinationMember(s[1..], r - 1, c[1..]);
      }
    } else if r > 0 && IsSubsequence(c, s) {
      SubsequenceShorter(c, s);
    }
  }

  /** There is a combination exactly when the itemset is long enough. */
  lemma {:induction false} CombinationsExist<T>(s: seq<T>, r: nat)
    ensures |Combinations(s, r)| > 0 <==> r <= |s|
    decreases |s|
  {
    if r > 0 && |s| >= r {
      CombinationsExist(s[1..], r - 1);
    }
  }

  /** Every `r`-combination of `t` is an itemset of the looked-up level. */
  ghost predicate AllSubsetsFrequent(t: Itemset, level: Option<set<Itemset>>, r: nat) {
    forall c :: c in Combinations(t, r) ==> level.Some? && c in level.value
  }

  /** `apply_apriori_pruning`: above size 3 an itemset is kept only if every
      combination of `k - 2` of its items is in level `k - 2`; otherwise all
      are kept. The result is sorted and free of duplicates. */
  method ApplyAprioriPruning(selected: seq<Itemset>, table: FrequentTable, k: int) returns (r: Result<seq<Itemset>>)
    ensures r.Err? <==> k > 3 && TupleLevel(table, k - 2).None? && exists t :: t in selected && |t| >= k - 2
    ensures r.Err? ==> r.error == KeyError
    ensures r.Ok? ==> Ascending(r.value, TupleLess)
    ensures r.Ok? ==> forall t :: t in r.value <==>
      t in selected && (k > 3 ==> AllSubsetsFrequent(t, TupleLevel(table, k - 2), k - 2))
  {
    var prunedSet: set<Itemset> := {};
    if k > 3 {
      var level := TupleLevel(table, k - 2);
      for i := 0 to |selected|
        invariant forall t :: t in prunedSet <==> t in selected[..i] && AllSubsetsFrequent(t, level, k - 2)
        invariant level.None? ==> forall t :: t in selected[..i] ==> |t| < k - 2
      {
        var item := selected[i];
        var subSatisfy := true;
        var subs := Combinations(item, k - 2);
        CombinationsExist(item, k - 2);
        var j := 0;
        while j < |subs|
          invariant 0 <= j <= |subs|
          invariant level.None? ==> j == 0
          invariant subSatisfy <==> forall m :: 0 <= m < j ==> level.Some? && subs[m] in level.value
        {
          if level.None? {
            return Err(KeyError);
          }
          if subs[j] !in level.value {
            subSatisfy := false;
          }
          j := j + 1;
        }
        assert subSatisfy <==> AllSubsetsFrequent(item, level, k - 2) by {
          if !subSatisfy {
            var m :| 0 <= m < |subs| && !(level.Some? && subs[m] in level.value);
            assert subs[m] in Combinations(item, k - 2);
          }
        }
        if subSatisfy {
          prunedSet := prunedSet + {item};
        }
        assert selected[..i + 1] == selected[..i] + [item];
      }
      assert selected[..|selected|] == selected;
    } else {
      for i := 0 to |selected|
        invariant forall t :: t in prunedSet <==> t in selected[..i]
      {
        prunedSet := prunedSet + {selected[i]};
        assert selected[..i + 1] == selected[..i] + [selected[i]];
      }
      assert selected[..|selected|] == selected;
    }
    TupleLessIsStrictTotal();
    var pruned := SortSet(prunedSet, TupleLess);
    r := Ok(pruned);
  }

  // ----- candidates and the level-by-level search -----

  /** `generate_candidate_itemsets`: the selective join followed by Apriori
      pruning. For size 2 these are the ascending pairs of level 1. */
  method GenerateCandidateItemsets(table: FrequentTable, k: int) returns (r: Result<seq<Itemset>>)
    ensures k == 2 ==> (r.Ok? && Ascending(r.value, TupleLess)
      && forall p :: p in r.value <==> IsAscendingPairOf(p, table.level1))
    ensures k != 2 && TupleLevel(table, k - 1).None? ==> r.Err?
    ensures k != 2 && r.Ok? ==> (Ascending(r.value, TupleLess)
      && forall t :: t in r.value <==> (JoinOf(t, TupleLevel(table, k - 1).value, k)
        && (k > 3 ==> AllSubsetsFrequent(t, TupleLevel(table, k - 2), k - 2))))
    ensures r.Err? ==> r.error == KeyError
  {
    var joined :- GenerateSelectivelyJoinedItemsets(table, k);
    r := ApplyAprioriPruning(joined, table, k);
  }

  /** An item accepted into level 1: support at least `minSupport` and
      information content at least `minIc`. */
  ghost predicate IsFrequentItem(t: TransactionMap, i: string, minSupport: int, minIc: real, ic: map<string, real>) {
    SupportOf(t, [i]) >= minSupport && i in ic && ic[i] >= minIc
  }

  /** The level-1 loop of `generate_all_frequent_itemsets`. The information
      content is looked up only for an item whose support passes, so only
      such an item without one fails. */
  method FrequentSingletons(t: TransactionMap, items: set<string>, minSupport: int, minIc: real, ic: map<string, real>)
    returns (r: Result<seq<string>>)
    ensures r.Err? <==> exists i :: i in items && SupportOf(t, [i]) >= minSupport && i !in ic
    ensures r.Err? ==> r.error == KeyError
    ensures r.Ok? ==> Ascending(r.value, StrLess)
    ensures r.Ok? ==> forall i :: i in r.value <==> i in items && IsFrequentItem(t, i, minSupport, minIc, ic)
  {
    var frequent: set<string> := {};
    var rest := items;
    ghost var done: set<string> := {};
    while rest != {}
      invariant rest + done == items && rest !! done
      invariant forall i :: i in frequent <==> i in done && IsFrequentItem(t, i, minSupport, minIc, ic)
      invariant forall i :: i in done && SupportOf(t, [i]) >= minSupport ==> i in ic
      decreases rest
    {
      var i :| i in rest;
      var supportCheck := Support(t, [i]);
      if supportCheck >= minSupport {
        if i !in ic {
          return Err(KeyError);
        }
        if ic[i] >= minIc {
          frequent := frequent + {i};
        }
      }
      rest := rest - {i};
      done := done + {i};
    }
    StrLessIsStrictTotal();
    var sorted := SortSet(frequent, StrLess);
    r := Ok(sorted);
  }

  /** The level-2 loop of `generate_all_frequent_itemsets`: the candidates
      whose weighted support reaches `minWeightedSupport`. */
  method FrequentPairs(t: TransactionMap, candidates: seq<Itemset>, minWeightedSupport: real, spec: map<string, real>)
    returns (r: Result<set<Itemset>>)
    ensures r.Err? <==> exists c :: c in candidates && !Weighable(c, spec)
    ensures r.Ok? ==> forall c :: c in r.value <==>
      c in candidates && Weighable(c, spec) && WeightedSupportOf(t, c, spec) >= minWeightedSupport
  {
    var pruned: set<Itemset> := {};
    for i := 0 to |candidates|
      invariant forall c :: c in candidates[..i] ==> Weighable(c, spec)
      invariant forall c :: c in pruned <==>
        c in candidates[..i] && Weighable(c, spec) && WeightedSupportOf(t, c, spec) >= minWeightedSupport
    {
      var candidate := candidates[i];
      var weighted := WeightedSupport(t, candidate, spec);
      if weighted.Err? {
        return Err(weighted.error);
      }
      if weighted.value >= minWeightedSupport {
        pruned := pruned + {candidate};
      }
      assert candidates[..i + 1] == candidates[..i] + [candidate];
    }
    assert candidates[..|candidates|] == candidates;
    r := Ok(pruned);
  }

  /** `ceil(min_support * len(transactions))` */
  function SupportThreshold(minSupport: real, n: nat): int {
    Numeric.Ceil(minSupport * n as real)
  }

  /** The divisor `ceil(min_weighted_support * len(transactions))`. */
  function WeightDivisor(minWeightedSupport: real, n: nat): int {
    Numeric.Ceil(minWeightedSupport * n as real)
  }

  /** The weighted-support threshold `min_weighted_support / ceil(...)`. */
  function WeightThreshold(minWeightedSupport: real, n: nat): real
    requires WeightDivisor(minWeightedSupport, n) != 0
  {
    minWeightedSupport / WeightDivisor(minWeightedSupport, n) as real
  }

  /** A pair of distinct level-1 items lacks a specificity value. */
  ghost predicate PairLookupFails(t: TransactionMap, items: set<string>, minSupport: int, minIc: real,
                                  ic: map<string, real>, spec: map<string, real>) {
    exists a, b :: a in items && b in items && a != b
      && IsFrequentItem(t, a, minSupport, minIc, ic) && IsFrequentItem(t, b, minSupport, minIc, ic)
      && (a !in spec || b !in spec)
  }

  /** `s` is level 2 as built from `level1`. */
  ghost predicate IsLevelTwo(s: set<Itemset>, t: TransactionMap, level1: seq<string>, spec: map<string, real>, wt: real) {
    forall p :: p in s <==> IsAscendingPairOf(p, level1) && Weighable(p, spec) && WeightedSupportOf(t, p, spec) >= wt
  }

  /** The lookup failure of level 2 happens exactly when a candidate pair of
      level 1 lacks a specificity value. */
  lemma PairLookupFailsOnCandidate(t: TransactionMap, items: set<string>, minSupport: int, minIc: real,
                                   ic: map<string, real>, spec: map<string, real>, level1: seq<string>)
    requires forall i :: i in level1 <==> i in items && IsFrequentItem(t, i, minSupport, minIc, ic)
    ensures PairLookupFails(t, items, minSupport, minIc, ic, spec) <==>
      exists c :: IsAscendingPairOf(c, level1) && !Weighable(c, spec)
  {
    StrLessIsStrictTotal();
    if PairLookupFails(t, items, minSupport, minIc, ic, spec) {
      var a, b :| a in items && b in items && a != b
        && IsFrequentItem(t, a, minSupport, minIc, ic) && IsFrequentItem(t, b, minSupport, minIc, ic)
        && (a !in spec || b !in spec);
      assert IsAscendingPairOf(SortedPair(a, b), level1) && !Weighable(SortedPair(a, b), spec);
    }
    if exists c :: IsAscendingPairOf(c, level1) && !Weighable(c, spec) {
      var c :| IsAscendingPairOf(c, level1) && !Weighable(c, spec);
      LexIrreflexive(c[0], CharLess);
      assert c[0] in items && c[1] in items && c[0] != c[1];
    }
  }

  /** `generate_all_frequent_itemsets`. The thresholds are derived first,
      each division failing on a zero divisor; `icScale` stands for
      `-log10(1/len(items))`. Level 1 holds the frequent items in order, and
      level 2, built only when level 1 is not empty, the candidate pairs
      whose weighted support reaches the threshold. The loop condition
      `itemset_size <= 2` stops it there. */
  method GenerateAllFrequentItemsets(t: TransactionMap, items: set<string>, minSupport: real,
                                     minWeightedSupport: real, minInformationContent: real, icScale: real,
                                     spec: map<string, real>, ic: map<string, real>)
    returns (r: Result<FrequentTable>)
    ensures WeightDivisor(minWeightedSupport, |t|) == 0 ==> r == Err(ZeroDivisionError)
    ensures WeightDivisor(minWeightedSupport, |t|) != 0 && |items| == 0 ==> r == Err(ZeroDivisionError)
    ensures WeightDivisor(minWeightedSupport, |t|) != 0 && |items| > 0 ==>
      var st, it := SupportThreshold(minSupport, |t|), minInformationContent * icScale;
      (r.Err? <==> (exists i :: i in items && SupportOf(t, [i]) >= st && i !in ic)
                   || PairLookupFails(t, items, st, it, ic, spec))
    ensures r.Ok? ==>
      var st, wt, it := SupportThreshold(minSupport, |t|), WeightThreshold(minWeightedSupport, |t|),
        minInformationContent * icScale;
      var level1 := r.value.level1;
      && Ascending(level1, StrLess)
      && (forall i :: i in level1 <==> i in items && IsFrequentItem(t, i, st, it, ic))
      && r.value.higher.Keys == (if |level1| > 0 then {2} else {})
      && (2 in r.value.higher ==> IsLevelTwo(r.value.higher[2], t, level1, spec, wt))
  {
    var supportThreshold := SupportThreshold(minSupport, |t|);
    var divisor := WeightDivisor(minWeightedSupport, |t|);
    if divisor == 0 {
      return Err(ZeroDivisionError);
    }
    var weightThreshold := minWeightedSupport / divisor as real;
    if |items| == 0 {
      return Err(ZeroDivisionError);
    }
    var icThreshold := minInformationContent * icScale;

    var level1 :- FrequentSingletons(t, items, supportThreshold, icThreshold, ic);
    PairLookupFailsOnCandidate(t, items, supportThreshold, icThreshold, ic, spec, level1);
    var table := FrequentTable(level1, map[]);

    var k := 2;
    while k <= 2 && |table.level1| > 0
      invariant table.level1 == level1
      invariant || (k == 2 && table.higher == map[])
                || (&& k == 3 && |level1| > 0 && table.higher.Keys == {2}
                    && IsLevelTwo(table.higher[2], t, level1, spec, weightThreshold)
                    && forall c :: IsAscendingPairOf(c, level1) ==> Weighable(c, spec))
      decreases 3 - k
    {
      var candidates := GenerateCandidateItemsets(table, k);
      var pairs := FrequentPairs(t, candidates.value, weightThreshold, spec);
      if pairs.Err? {
        return Err(pairs.error);
      }
      table := table.(higher := table.higher[k := pairs.value]);
      k := k + 1;
    }
    r := Ok(table);
  }

  /** `apriori`: the level-2 entry of the table. It is missing when level 1
      is empty, and the lookup then fails. */
  method Apriori(t: TransactionMap, items: set<string>, minSupport: real, minWeightedSupport: real,
                 minInformationContent: real, icScale: real, spec: map<string, real>, ic: map<string, real>)
    returns (r: Result<set<Itemset>>)
    ensures WeightDivisor(minWeightedSupport, |t|) == 0 || |items| == 0 ==> r == Err(ZeroDivisionError)
    ensures WeightDivisor(minWeightedSupport, |t|) != 0 && |items| > 0 ==>
      var st, it := SupportThreshold(minSupport, |t|), minInformationContent * icScale;
      (&& !(exists i :: i in items && SupportOf(t, [i]) >= st && i !in ic)
       && (forall i :: i in items ==> !IsFrequentItem(t, i, st, it, ic))
       ==> r == Err(KeyError))
    ensures r.Ok? ==>
      var st, wt, it := SupportThreshold(minSupport, |t|), WeightThreshold(minWeightedSupport, |t|),
        minInformationContent * icScale;
      forall p :: p in r.value <==>
        && |p| == 2 && StrLess(p[0], p[1])
        && p[0] in items && IsFrequentItem(t, p[0], st, it, ic)
        && p[1] in items && IsFrequentItem(t, p[1], st, it, ic)
        && Weighable(p, spec) && WeightedSupportOf(t, p, spec) >= wt
  {
    var table :- GenerateAllFrequentItemsets(t, items, minSupport, minWeightedSupport,
                                             minInformationContent, icScale, spec, ic);
    if 2 !in table.higher {
      return Err(KeyError);
    }
    assert table.level1[0] in table.level1;
    r := Ok(table.higher[2]);
  }

  /** No frequent pair is held by more transactions than either of its
      items: the count behind the weighted support is bounded by the
      supports that admitted the items to level 1. */
  lemma PairSupportBelowItems(t: TransactionMap, p: Itemset)
    requires |p| == 2
    ensures SupportOf(t, p) <= SupportOf(t, [p[0]]) && SupportOf(t, p) <= SupportOf(t, [p[1]])
  {
    SupportAntiMonotone(t, [p[0]], p);
    SupportAntiMonotone(t, [p[1]], p);
  }
}
