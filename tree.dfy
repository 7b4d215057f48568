/** Propagation of gene annotations up a term hierarchy: maps are inverted,
    and every term's gene set is enlarged by the gene sets of its children
    until each reachable parent holds the genes of its children. */
module TreeModification {
  import Weights
  import Sets

  /** A term hierarchy (term to parent terms), or an annotation map (gene to
      terms, term to genes). */
  type Relation = map<string, set<string>>

  /** Every value that occurs in some entry. */
  function Values(m: Relation): set<string> {
    set k, v | k in m && v in m[k] :: v
  }

  /** The relation read backwards: each value maps to the keys that hold it. */
  ghost function Inverse(m: Relation): (r: Relation)
    ensures r.Keys == Values(m)
  {
    map v | v in Values(m) :: set k | k in m && v in m[k]
  }

  /** `swap_key_value`: for each key and each of its values, the key is added
      to the value's entry, which is created empty on first sight. */
  method SwapKeyValue(keyToValue: Relation) returns (valueToKey: Relation)
    ensures valueToKey.Keys == Values(keyToValue)
    ensures forall v, k :: v in valueToKey ==> (k in valueToKey[v] <==> k in keyToValue && v in keyToValue[k])
    ensures valueToKey == Inverse(keyToValue)
  {
    valueToKey := map[];
    var keys := keyToValue.Keys;
    ghost var done: set<string> := {};
    while keys != {}
      invariant keys + done == keyToValue.Keys && keys !! done
      invariant forall v, k :: v in valueToKey ==> (k in valueToKey[v] <==> k in done && v in keyToValue[k])
      invariant forall k, v :: k in done && v in keyToValue[k] ==> v in valueToKey
      invariant forall v :: v in valueToKey ==> valueToKey[v] != {}
      decreases keys
    {
      var key :| key in keys;
      var values := keyToValue[key];
      ghost var seen: set<string> := {};
      while values != {}
        invariant values + seen == keyToValue[key] && values !! seen
        invariant forall v, k :: v in valueToKey ==>
          (k in valueToKey[v] <==> (k in done && v in keyToValue[k]) || (k == key && v in seen))
        invariant forall k, v :: k in done && v in keyToValue[k] ==> v in valueToKey
        invariant forall v :: v in seen ==> v in valueToKey
        invariant forall v :: v in valueToKey ==> valueToKey[v] != {}
        decreases values
      {
        var value :| value in values;
        if value !in valueToKey {
          valueToKey := valueToKey[value := {}];
        }
        valueToKey := valueToKey[value := valueToKey[value] + {key}];
        values := values - {value};
        seen := seen + {value};
      }
      keys := keys - {key};
      done := done + {key};
    }
    assert done == keyToValue.Keys;
    forall v | v in valueToKey ensures v in Values(keyToValue) {
      var k :| k in valueToKey[v];
      assert k in keyToValue && v in keyToValue[k];
    }
    assert valueToKey.Keys == Values(keyToValue);
    forall v | v in valueToKey ensures valueToKey[v] == Inverse(keyToValue)[v] {
    }
  }

  /** Inverting twice gives back the relation without its empty entries. */
  lemma InverseTwice(m: Relation)
    ensures Inverse(Inverse(m)) == map k | k in m && m[k] != {} :: m[k]
  {
    var n := map k | k in m && m[k] != {} :: m[k];
    var ii := Inverse(Inverse(m));
    forall k ensures k in ii <==> k in n {
      if k in n {
        var v :| v in m[k];
        assert k in Inverse(m)[v];
      }
    }
    forall k | k in ii ensures ii[k] == n[k] {
    }
  }

  /** The genes of a term, empty when it has no entry. */
  function GenesOf(g: Relation, t: string): set<string> {
    if t in g then g[t] else {}
  }

  /** The genes of those children that have an entry. */
  function ChildGenes(g: Relation, children: set<string>): set<string> {
    set c, x | c in children && c in g && x in g[c] :: x
  }

  lemma ChildGenesAdd(g: Relation, done: set<string>, c: string)
    ensures ChildGenes(g, done + {c}) == ChildGenes(g, done) + GenesOf(g, c)
  {
  }

  /** The genes after `gene_to_parent` has visited the children in `done`. */
  ghost function Gathered(g: Relation, node: string, done: set<string>): Relation {
    if done == {} then g else g[node := GenesOf(g, node) + ChildGenes(g, done)]
  }

  lemma GatheredStep(g: Relation, node: string, done: set<string>, child: string)
    ensures var cur := Gathered(g, node, done);
      Gathered(g, node, done + {child}) == cur[node := GenesOf(cur, node) + GenesOf(cur, child)]
  {
    var cur := Gathered(g, node, done);
    ChildGenesAdd(g, done, child);
    var a := GenesOf(g, node);
    var before := a + ChildGenes(g, done);
    if done == {} {
      assert ChildGenes(g, done) == {};
      assert before == a;
    }
    assert GenesOf(cur, node) == before;
    assert GenesOf(cur, child) == if child == node then before else GenesOf(g, child);
    assert cur[node := before + GenesOf(cur, child)] == g[node := before + GenesOf(cur, child)];
    var after := Gathered(g, node, done + {child});
    assert after == g[node := a + ChildGenes(g, done + {child})];
    assert a + ChildGenes(g, done + {child}) == before + GenesOf(g, child);
    if child == node {
      assert before + GenesOf(g, child) == before + before;
    }
  }

  /** The gene sets of the terms, updated in place as the hierarchy is
      walked upwards. */
  class TermGenes {
    var genes: Relation

    constructor (initial: Relation)
      ensures genes == initial
    {
      genes := initial;
    }

    /** `gene_to_parent`: `tree` maps each term to its children. Looking up
        `node` raises `KeyError` when it has no entry, before anything
        changes (`ok` is false). Otherwise, when `node` has children, its
        gene set (created empty if missing) gains the genes of every child
        that has an entry; no other term changes. */
    method GeneToParent(node: string, tree: Relation) returns (ok: bool)
      modifies this
      ensures ok <==> node in tree
      ensures !ok || tree[node] == {} ==> genes == old(genes)
      ensures ok && tree[node] != {} ==>
        genes == old(genes)[node := GenesOf(old(genes), node) + ChildGenes(old(genes), tree[node])]
    {
      if node !in tree {
        return false;
      }
      ok := true;
      var children := tree[node];
      ghost var done: set<string> := {};
      while children != {}
        invariant children + done == tree[node] && children !! done
        invariant genes == Gathered(old(genes), node, done)
        decreases children
      {
        var child :| child in children;
        GatheredStep(old(genes), node, done, child);
        GatherChild(node, child);
        children := children - {child};
        done := done + {child};
      }
    }

    /** One child of `gene_to_parent`'s loop: the entry of `node` is created
        empty when missing, then gains the genes of `child` if it has an
        entry. */
    method GatherChild(node: string, child: string)
      modifies this
      ensures genes == old(genes)[node := GenesOf(old(genes), node) + GenesOf(old(genes), child)]
    {
      if node !in genes {
        genes := genes[node := {}];
      }
      assert genes == old(genes)[node := GenesOf(old(genes), node)];
      if child in genes {
        AddGenes(node, genes[child]);
      } else {
        assert GenesOf(old(genes), child) == {};
        assert GenesOf(old(genes), node) + GenesOf(old(genes), child) == GenesOf(old(genes), node);
      }
    }

    /** Adds every gene of `carried` to the entry of `node`, one at a time. */
    method AddGenes(node: string, carried: set<string>)
      requires node in genes
      modifies this
      ensures genes == old(genes)[node := old(genes)[node] + carried]
    {
      var rest := carried;
      ghost var added: set<string> := {};
      while rest != {}
        invariant node in genes && genes == old(genes)[node := genes[node]]
        invariant genes[node] == old(genes)[node] + added
        invariant rest + added == carried
        decreases rest
      {
        var c :| c in rest;
        genes := genes[node := genes[node] + {c}];
        rest := rest - {c};
        added := added + {c};
      }
    }
  }

  /** The nodes of a hierarchy: terms that have parents, and parents. */
  function AllNodes(tcp: Relation): set<string> {
    tcp.Keys + Values(tcp)
  }

  /** `rank` witnesses that the hierarchy has no cycle: a parent always has
      a lower rank than its child. */
  ghost predicate Ranked(tcp: Relation, rank: map<string, nat>) {
    forall c :: c in tcp ==> c in rank && forall p :: p in tcp[c] ==> p in rank && rank[p] < rank[c]
  }

  /** Terms that are nobody's parent. */
  function Leaves(tcp: Relation): set<string> {
    tcp.Keys - Values(tcp)
  }

  /** A leaf is a term with parents that is no term's parent; these are the
      nodes `gene_to_all_parents` keeps when it takes the nodes of both maps
      and drops the keys of the inverted one. */
  lemma LeavesAreNobodysParent(tcp: Relation, l: string)
    ensures l in Leaves(tcp) <==> l in tcp && forall c :: c in tcp ==> l !in tcp[c]
    ensures l in Leaves(tcp) <==> l in (Inverse(tcp).Keys + tcp.Keys) - Inverse(tcp).Keys
  {
    if l in tcp && l !in Leaves(tcp) {
      var c :| c in tcp && l in tcp[c];
    }
  }

  /** The parents of the leaves. */
  function Seed(tcp: Relation): set<string> {
    set l, p | l in Leaves(tcp) && p in tcp[l] :: p
  }

  /** `path` climbs the hierarchy from child to parent at each step. */
  ghost predicate IsUpPath(tcp: Relation, path: seq<string>) {
    && |path| >= 1
    && forall i :: 0 <= i < |path| - 1 ==> path[i] in tcp && path[i + 1] in tcp[path[i]]
  }

  /** `p` can be reached by climbing from a node still on the worklist. */
  ghost predicate Pending(tcp: Relation, w: set<string>, p: string) {
    exists path :: IsUpPath(tcp, path) && path[0] in w && path[|path| - 1] == p
  }

  /** Gene `g` of term `t` was first attached to `t` or to a descendant. */
  ghost predicate Derived(tcp: Relation, init: Relation, t: string, g: string) {
    exists path :: IsUpPath(tcp, path) && path[|path| - 1] == t && path[0] in init && g in init[path[0]]
  }

  /** Every child's genes are in its parent's set, unless the parent is
      still to be reached from the worklist. */
  ghost predicate Propagated(tcp: Relation, g: Relation, w: set<string>) {
    forall c, p :: c in tcp && p in tcp[c] && p in tcp ==> GenesOf(g, c) <= GenesOf(g, p) || Pending(tcp, w, p)
  }

  /** No gene is invented: each comes from the term or from a descendant. */
  ghost predicate Sound(tcp: Relation, init: Relation, g: Relation) {
    forall t, x :: t in g && x in g[t] ==> Derived(tcp, init, t, x)
  }

  /** The initial gene sets are kept. */
  ghost predicate Grown(init: Relation, g: Relation) {
    forall t :: t in init ==> t in g && init[t] <= g[t]
  }

  /** Terms without parents are never updated. */
  ghost predicate RootsKept(tcp: Relation, init: Relation, g: Relation) {
    forall t :: t !in tcp ==> (t in g <==> t in init) && (t in g ==> g[t] == init[t])
  }

  /** Every parent that has parents of its own has an entry, unless it is
      still to be reached from the worklist. */
  ghost predicate Reached(tcp: Relation, g: Relation, w: set<string>) {
    forall p :: p in Values(tcp) && p in tcp && p !in g ==> Pending(tcp, w, p)
  }

  /** One popped node: its parents join the worklist, and when it has
      parents its gene set gains its children's genes. */
  ghost function Step(tcp: Relation, g: Relation, x: string): Relation {
    if x in tcp then g[x := GenesOf(g, x) + ChildGenes(g, ChildrenOf(tcp, x))] else g
  }

  /** The terms that have `x` as a parent. */
  function ChildrenOf(tcp: Relation, x: string): set<string> {
    set c | c in tcp && x in tcp[c]
  }

  lemma StepUpdates(tcp: Relation, g: Relation, x: string)
    requires x in tcp
    ensures Step(tcp, g, x) == g[x := GenesOf(g, x) + ChildGenes(g, ChildrenOf(tcp, x))]
  {
  }

  /** One turn changes only the popped node's entry: a node without parents
      is left alone, and otherwise its entry (created when missing) keeps its
      genes and gains those of each of its children. */
  lemma StepGathers(tcp: Relation, g: Relation, x: string)
    ensures x !in tcp ==> Step(tcp, g, x) == g
    ensures Step(tcp, g, x).Keys == g.Keys + (if x in tcp then {x} else {})
    ensures forall t :: t in g && t != x ==> Step(tcp, g, x)[t] == g[t]
    ensures GenesOf(g, x) <= GenesOf(Step(tcp, g, x), x)
    ensures x in tcp ==> forall c :: c in ChildrenOf(tcp, x) ==> GenesOf(g, c) <= GenesOf(Step(tcp, g, x), x)
  {
    if x in tcp {
      forall c | c in ChildrenOf(tcp, x) ensures GenesOf(g, c) <= GenesOf(Step(tcp, g, x), x) {
        forall y | y in GenesOf(g, c) ensures y in ChildGenes(g, ChildrenOf(tcp, x)) {
          assert c in g && y in g[c];
        }
      }
    }
  }

  ghost function Requeue(tcp: Relation, w: set<string>, x: string): set<string> {
    (w - {x}) + (if x in tcp then tcp[x] else {})
  }

  lemma PendingAfterPop(tcp: Relation, w: set<string>, x: string, p: string)
    requires Pending(tcp, w, p) && p != x
    ensures Pending(tcp, Requeue(tcp, w, x), p)
  {
    var path :| IsUpPath(tcp, path) && path[0] in w && path[|path| - 1] == p;
    if path[0] == x {
      var rest := path[1..];
      assert IsUpPath(tcp, rest) && rest[0] in Requeue(tcp, w, x) && rest[|rest| - 1] == p;
    } else {
      assert path[0] in Requeue(tcp, w, x);
    }
  }

  lemma DerivedUp(tcp: Relation, init: Relation, c: string, x: string, g: string)
    requires Derived(tcp, init, c, g) && c in tcp && x in tcp[c]
    ensures Derived(tcp, init, x, g)
  {
    var path :| IsUpPath(tcp, path) && path[|path| - 1] == c && path[0] in init && g in init[path[0]];
    var longer := path + [x];
    assert IsUpPath(tcp, longer);
  }

  lemma PropagatedStep(tcp: Relation, rank: map<string, nat>, g: Relation, w: set<string>, x: string)
    requires Ranked(tcp, rank) && x in w && Propagated(tcp, g, w)
    ensures Propagated(tcp, Step(tcp, g, x), Requeue(tcp, w, x))
  {
    var g' := Step(tcp, g, x);
    var w' := Requeue(tcp, w, x);
    forall c, p | c in tcp && p in tcp[c] && p in tcp
      ensures GenesOf(g', c) <= GenesOf(g', p) || Pending(tcp, w', p)
    {
      if x in tcp && p == x {
        assert c != x;
        assert c in ChildrenOf(tcp, x);
      } else if x in tcp && c == x {
        var path := [p];
        assert IsUpPath(tcp, path) && path[0] in w';
      } else if !(GenesOf(g, c) <= GenesOf(g, p)) {
        PendingAfterPop(tcp, w, x, p);
      }
    }
  }

  /** One turn keeps every parent with parents either entered or pending:
      the popped node gets an entry when it has parents. */
  lemma ReachedStep(tcp: Relation, g: Relation, w: set<string>, x: string)
    requires x in w && Reached(tcp, g, w)
    ensures Reached(tcp, Step(tcp, g, x), Requeue(tcp, w, x))
  {
    var g' := Step(tcp, g, x);
    forall p | p in Values(tcp) && p in tcp && p !in g' ensures Pending(tcp, Requeue(tcp, w, x), p) {
      assert p != x && p !in g;
      PendingAfterPop(tcp, w, x, p);
    }
  }

  lemma SoundStep(tcp: Relation, init: Relation, g: Relation, x: string)
    requires Sound(tcp, init, g)
    ensures Sound(tcp, init, Step(tcp, g, x))
  {
    var g' := Step(tcp, g, x);
    forall t, e | t in g' && e in g'[t] ensures Derived(tcp, init, t, e) {
      if x in tcp && t == x && e !in GenesOf(g, x) {
        var c :| c in ChildrenOf(tcp, x) && c in g && e in g[c];
        DerivedUp(tcp, init, c, x, e);
      }
    }
  }

  /** Processing one node keeps every invariant for the requeued worklist. */
  lemma StepPreserves(tcp: Relation, init: Relation, rank: map<string, nat>, g: Relation, w: set<string>, x: string)
    requires Ranked(tcp, rank) && x in w
    requires Invariant(tcp, init, g, w)
    ensures Invariant(tcp, init, Step(tcp, g, x), Requeue(tcp, w, x))
  {
    PropagatedStep(tcp, rank, g, w, x);
    SoundStep(tcp, init, g, x);
    ReachedStep(tcp, g, w, x);
    forall v | v in Requeue(tcp, w, x) ensures v in Values(tcp) {
      if v !in w {
        assert x in tcp && v in tcp[x];
      }
    }
  }

  lemma {:induction false} MaxRank(s: set<string>, rank: map<string, nat>) returns (m: nat)
    requires s <= rank.Keys
    ensures forall k :: k in s ==> rank[k] <= m
    decreases |s|
  {
    if s == {} {
      m := 0;
    } else {
      var k :| k in s;
      var m' := MaxRank(s - {k}, rank);
      m := if rank[k] > m' then rank[k] else m';
    }
  }

  /** Every parent can be reached by climbing from a parent of a leaf: below
      any term lies a leaf, since ranks grow downwards and are bounded. */
  lemma {:induction false} PendingFromLeaves(tcp: Relation, rank: map<string, nat>, m: nat, c: string, p: string)
    requires Ranked(tcp, rank) && forall k :: k in tcp ==> rank[k] <= m
    requires c in tcp && p in tcp[c]
    ensures Pending(tcp, Seed(tcp), p)
    decreases m - rank[c]
  {
    if c in Leaves(tcp) {
      var path := [p];
      assert IsUpPath(tcp, path) && path[0] in Seed(tcp);
    } else {
      var c' :| c' in tcp && c in tcp[c'];
      PendingFromLeaves(tcp, rank, m, c', c);
      var path :| IsUpPath(tcp, path) && path[0] in Seed(tcp) && path[|path| - 1] == c;
      var longer := path + [p];
      assert IsUpPath(tcp, longer) && longer[0] in Seed(tcp);
    }
  }

  /** The invariants hold before the first node is popped. */
  lemma InitiallyPropagated(tcp: Relation, rank: map<string, nat>, init: Relation)
    requires Ranked(tcp, rank)
    ensures Propagated(tcp, init, Seed(tcp)) && Sound(tcp, init, init)
    ensures Reached(tcp, init, Seed(tcp))
    ensures Seed(tcp) <= Values(tcp)
  {
    var m := MaxRank(tcp.Keys, rank);
    forall c, p | c in tcp && p in tcp[c] ensures Pending(tcp, Seed(tcp), p) {
      PendingFromLeaves(tcp, rank, m, c, p);
    }
    forall p | p in Values(tcp) ensures Pending(tcp, Seed(tcp), p) {
      var c :| c in tcp && p in tcp[c];
      PendingFromLeaves(tcp, rank, m, c, p);
    }
    forall t, x | t in init && x in init[t] ensures Derived(tcp, init, t, x) {
      assert IsUpPath(tcp, [t]);
    }
  }

  /** The worklist weighs less after each pop. */
  lemma WeightDecreases(tcp: Relation, rank: map<string, nat>, w: set<string>, x: string)
    requires Ranked(tcp, rank) && x in w && w <= Values(tcp)
    ensures Values(tcp) <= rank.Keys && Requeue(tcp, w, x) <= Values(tcp)
    ensures Weights.Weight(Requeue(tcp, w, x), rank, |AllNodes(tcp)| + 1)
          < Weights.Weight(w, rank, |AllNodes(tcp)| + 1)
  {
    var b := |AllNodes(tcp)| + 1;
    assert Values(tcp) <= rank.Keys;
    var parents := if x in tcp then tcp[x] else {};
    assert parents <= Values(tcp);
    Sets.SubsetCard(parents, AllNodes(tcp));
    Weights.WeightRemove(w, x, rank, b);
    Weights.WeightUnionLe(w - {x}, parents, rank, b);
    Weights.WeightBelow(parents, rank[x], rank, b);
  }

  /** The leaf loop of `gene_to_all_parents`: the nodes that are not keys of
      the parent-to-children map. */
  method LeafNodes(allNodes: set<string>, treeParentChild: Relation) returns (leafNodes: set<string>)
    ensures leafNodes == allNodes - treeParentChild.Keys
  {
    leafNodes := {};
    var rest := allNodes;
    while rest != {}
      invariant rest <= allNodes
      invariant leafNodes == (allNodes - rest) - treeParentChild.Keys
      decreases rest
    {
      var node :| node in rest;
      if node !in treeParentChild {
        leafNodes := leafNodes + {node};
      }
      rest := rest - {node};
    }
  }

  /** The seeding loop of `gene_to_all_parents`: the parents of every leaf.
      The leaves come from the keys of `treeChildParent`, so looking them up
      cannot fail. */
  method SeedWorklist(treeChildParent: Relation, leafNodes: set<string>) returns (toCheck: set<string>)
    requires leafNodes <= treeChildParent.Keys
    ensures toCheck == set l, p | l in leafNodes && p in treeChildParent[l] :: p
  {
    toCheck := {};
    var rest := leafNodes;
    ghost var done: set<string> := {};
    while rest != {}
      invariant rest + done == leafNodes && rest !! done
      invariant toCheck == set l, p | l in done && p in treeChildParent[l] :: p
      decreases rest
    {
      var node :| node in rest;
      toCheck := toCheck + treeChildParent[node];
      rest := rest - {node};
      done := done + {node};
    }
  }

  /** The invariants of the worklist loop. */
  ghost predicate Invariant(tcp: Relation, init: Relation, g: Relation, w: set<string>) {
    && w <= Values(tcp)
    && Propagated(tcp, g, w) && Sound(tcp, init, g) && Grown(init, g) && RootsKept(tcp, init, g)
    && Reached(tcp, g, w)
    && g.Keys <= init.Keys + Values(tcp)
  }

  /** The children's entry of a parent in the inverted hierarchy. */
  lemma ChildrenOfInverse(tcp: Relation, tpc: Relation, x: string)
    requires tpc == Inverse(tcp) && x in Values(tcp)
    ensures x in tpc && tpc[x] == ChildrenOf(tcp, x) && tpc[x] != {}
  {
    var k :| k in tcp && x in tcp[k];
    assert k in ChildrenOf(tcp, x);
  }

  /** Nothing is pending on an empty worklist. */
  lemma NothingPending(tcp: Relation, p: string)
    ensures !Pending(tcp, {}, p)
  {
  }

  /** With the worklist empty, nothing is pending, so every child's genes
      are in its parent's, and every parent that has parents has an entry. */
  lemma Drained(tcp: Relation, init: Relation, g: Relation)
    requires Invariant(tcp, init, g, {})
    ensures forall c, p :: c in tcp && p in tcp[c] && p in tcp ==> GenesOf(g, c) <= GenesOf(g, p)
    ensures Values(tcp) * tcp.Keys <= g.Keys
  {
    forall c, p | c in tcp && p in tcp[c] && p in tcp ensures GenesOf(g, c) <= GenesOf(g, p) {
      NothingPending(tcp, p);
    }
    forall p | p in Values(tcp) && p in tcp ensures p in g {
      NothingPending(tcp, p);
    }
  }

  /** The worklist loop of `gene_to_all_parents`. */
  method Drain(treeChildParent: Relation, treeParentChild: Relation, terms: TermGenes, toCheck: set<string>,
               ghost rank: map<string, nat>, ghost initial: Relation)
    requires Ranked(treeChildParent, rank) && treeParentChild == Inverse(treeChildParent)
    requires Invariant(treeChildParent, initial, terms.genes, toCheck)
    modifies terms
    ensures Invariant(treeChildParent, initial, terms.genes, {})
  {
    var work := toCheck;
    ghost var b := |AllNodes(treeChildParent)| + 1;
    assert Values(treeChildParent) <= rank.Keys;
    while work != {}
      invariant Invariant(treeChildParent, initial, terms.genes, work)
      decreases Weights.Weight(work, rank, b)
    {
      var checking :| checking in work;
      StepPreserves(treeChildParent, initial, rank, terms.genes, work, checking);
      WeightDecreases(treeChildParent, rank, work, checking);
      work := Visit(treeChildParent, treeParentChild, terms, work, checking);
    }
  }

  /** One turn of the worklist loop: `checking` is popped; when it has
      parents they are queued and `gene_to_parent` updates its genes. */
  method Visit(treeChildParent: Relation, treeParentChild: Relation, terms: TermGenes, toCheck: set<string>, checking: string)
    returns (work: set<string>)
    requires treeParentChild == Inverse(treeChildParent) && checking in toCheck && toCheck <= Values(treeChildParent)
    modifies terms
    ensures work == Requeue(treeChildParent, toCheck, checking)
    ensures terms.genes == Step(treeChildParent, old(terms.genes), checking)
  {
    work := toCheck - {checking};
    if checking in treeChildParent {
      work := work + treeChildParent[checking];
      ChildrenOfInverse(treeChildParent, treeParentChild, checking);
      var ok := terms.GeneToParent(checking, treeParentChild);
      StepUpdates(treeChildParent, old(terms.genes), checking);
    }
  }

  /** `gene_to_all_parents`: inverts the hierarchy and the annotations,
      seeds a worklist with the parents of the leaves, and pops nodes until
      it is empty; a popped node that has parents queues them and gathers
      its children's genes. `rank` is a witness that the hierarchy has no
      cycle, so that the loop ends. */
  method GeneToAllParents(treeChildParent: Relation, geneToTerms: Relation, ghost rank: map<string, nat>)
    returns (termsToGenes: Relation)
    requires Ranked(treeChildParent, rank)
    ensures forall c, p :: c in treeChildParent && p in treeChildParent[c] && p in treeChildParent ==>
      GenesOf(termsToGenes, c) <= GenesOf(termsToGenes, p)
    ensures Grown(Inverse(geneToTerms), termsToGenes)
    ensures Sound(treeChildParent, Inverse(geneToTerms), termsToGenes)
    ensures RootsKept(treeChildParent, Inverse(geneToTerms), termsToGenes)
    ensures termsToGenes.Keys <= Inverse(geneToTerms).Keys + Values(treeChildParent)
    ensures Values(treeChildParent) * treeChildParent.Keys <= termsToGenes.Keys
  {
    var treeParentChild := SwapKeyValue(treeChildParent);
    var allNodes := treeParentChild.Keys + treeChildParent.Keys;
    var initial := SwapKeyValue(geneToTerms);
    var leafNodes := LeafNodes(allNodes, treeParentChild);
    assert leafNodes == Leaves(treeChildParent);
    var toCheck := SeedWorklist(treeChildParent, leafNodes);
    assert toCheck == Seed(treeChildParent);
    var terms := new TermGenes(initial);
    InitiallyPropagated(treeChildParent, rank, initial);
    Drain(treeChildParent, treeParentChild, terms, toCheck, rank, initial);
    termsToGenes := terms.genes;
    Drained(treeChildParent, initial, termsToGenes);
  }
}
