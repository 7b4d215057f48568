# Weighted Apriori over term annotations — a Dafny model

This project models the mining core of a tool that looks for associations
between ontology terms (Gene Ontology and Human Phenotype Ontology) through
the genes annotated to them. It covers five parts:

- **Ontology parsing**: two readers of OBO files. They record, for every term id,
  the ids on its `is_a:` lines.
- **Annotation parsing**: two readers of tab-separated annotation files. They
  collect, per gene, the annotated terms, the GO terms split by namespace,
  and the gene's synonyms.
- **Tree modification**: map inversion, and propagation of gene sets up the
  term hierarchy through a set worklist. The gene sets are updated in place
  (class `TermGenes`).
- **Weighted Apriori**: support counting, level 1 from a count threshold and
  an information-content threshold, the selective join, Apriori pruning,
  and level 2 from a harmonic-mean weighted support. The search stops after
  level 2.
- **Association creation**: each frequent pair in both orders, filtered by
  strict thresholds on confidence and on the coverage of the left item.

Each Python loop is a Dafny method with loop invariants, except four loops
of `gene_to_all_parents`: the two that collect `all_nodes`
(tree_modification.py:34-37), and the two inner loops that add a node's
parents to `to_check` one by one (tree_modification.py:46-47 and 53-54).
Each of these is written as a set union (see "## Left out"). Each method is proved against a specification function or
predicate, and that function's properties are proved as lemmas. A parser is a step function on one line,
folded over the lines (`HpoLines`, `GoLines`, `HpoAnnLines`, `GoAnnLines`).
The parser method's loop keeps the state equal to the fold of the lines
read so far. A Python exception is the `Err` case of `Results.Result`
(`KeyError`, `IndexError`, `ZeroDivisionError`). A later line never undoes
an error (`*ErrPersists`).

The model follows the code where it differs from what the system is meant
to do:

- `gene_to_all_parents` is meant to propagate genes along every child→parent
  edge. After propagation, gene sets are upward closed only along edges whose
  parent is itself a key of the child-to-parent map. A popped node that is not
  a key is never updated.
- Confidence and coverage are plain fractions. There are no left/right term
  pools, and no specificity weighting of rules.
- `parsing_ann` keeps exactly the rows whose qualifier column contains `NOT`.

## Model

| member | source | states |
|---|---|---|
| Transactions.Support | apriori_algorithm.py:50-71 | the nested flag loops count exactly the transactions whose terms hold every item of the itemset (`SupportOf`) |
| Transactions.SupportBounded | apriori_algorithm.py:50-71 | the support count lies between 0 and the number of transactions |
| Transactions.SupportOfEmpty | apriori_algorithm.py:56-69 | the empty itemset is counted in every transaction |
| Transactions.SupportAntiMonotone | apriori_algorithm.py:56-69 | an itemset whose items include another's never has a larger count |
| Transactions.SupportOfSameItems | apriori_algorithm.py:60-67 | the count depends only on the set of items, not on their order or repetition |
| WeightedApriori.WeightedSupport | apriori_algorithm.py:16-43 | result is 2·s(a)·s(b)·count/(s(a)+s(b)), with count the support count, and 0 when s(a)+s(b)=0; `IndexError` for fewer than two items, `KeyError` when a specificity is missing, checked in the source's order |
| WeightedApriori.WeightedSupportSymmetric | apriori_algorithm.py:37-41 | the weighted support of a pair is the same in both orders |
| WeightedApriori.JoinsSelf | apriori_algorithm.py:88-97 | joining the level-1 items with themselves gives exactly the ascending pairs of distinct items |
| WeightedApriori.JoinPairsWith | apriori_algorithm.py:89-97 | the inner loop adds exactly the sorted pairs of `item1` with every different item |
| WeightedApriori.JoinLevelOne | apriori_algorithm.py:88-117 | size 2: the result is strictly ascending (sorted, no duplicates) and holds exactly the ascending pairs of distinct level-1 items |
| WeightedApriori.JoinPair | apriori_algorithm.py:101-112 | a pair is joinable iff it shares at least k-2 items and not k-1; the joined tuple is the sorted union |
| WeightedApriori.JoinWith | apriori_algorithm.py:89-115 | the inner loop adds only joins of `prev`, and a union for every joinable partner of `item1` |
| WeightedApriori.JoinLevel | apriori_algorithm.py:88-117 | size k > 2: the result is strictly ascending and holds exactly the sorted unions of two joinable itemsets of level k-1 |
| WeightedApriori.JoinedSize | apriori_algorithm.py:100-115 | when level k-1 holds ascending itemsets of k-1 items, every joined itemset has exactly k items |
| WeightedApriori.GenerateSelectivelyJoinedItemsets | apriori_algorithm.py:79-118 | dispatches on the size; a missing level k-1 raises `KeyError`; otherwise the result of the chosen join |
| WeightedApriori.PrefixedMember | apriori_algorithm.py:134 | the members of `x` prefixed to a list of combinations are `x` followed by a member |
| WeightedApriori.CombinationMember | apriori_algorithm.py:134 | `combinations(item, r)` holds exactly the length-r subsequences of the item |
| WeightedApriori.CombinationsExist | apriori_algorithm.py:134 | there is a combination iff r is at most the itemset's length |
| WeightedApriori.ApplyAprioriPruning | apriori_algorithm.py:127-147 | the result is sorted and duplicate-free; it holds exactly the input itemsets, and above size 3 only those whose every (k-2)-combination is in level k-2; `KeyError` iff that level is missing and some itemset has a combination |
| WeightedApriori.GenerateCandidateItemsets | apriori_algorithm.py:154-157 | join then prune: for size 2 the ascending pairs of level 1; above that the joins that pass pruning, sorted |
| WeightedApriori.FrequentSingletons | apriori_algorithm.py:182-188 | level 1 is the sorted list of the items with support ≥ threshold and IC ≥ threshold; `KeyError` iff an item passing the support test has no IC |
| WeightedApriori.FrequentPairs | apriori_algorithm.py:200-206 | the kept candidates are exactly those whose weighted support reaches the threshold; an error iff some candidate lacks a specificity |
| WeightedApriori.PairLookupFailsOnCandidate | apriori_algorithm.py:195-204 | a specificity lookup fails on a level-2 candidate iff two distinct level-1 items lack a specificity between them |
| WeightedApriori.GenerateAllFrequentItemsets | apriori_algorithm.py:165-210 | `ZeroDivisionError` when ceil(mws·\|T\|) = 0 or there are no items; otherwise an error iff an IC or specificity lookup fails; level 1 as above; level 2 exists iff level 1 is non-empty and holds the ascending pairs of level 1 whose weighted support reaches mws/ceil(mws·\|T\|); no other level is built |
| WeightedApriori.Apriori | apriori_algorithm.py:259-263 | the pairs returned are exactly the ascending pairs of frequent items whose weighted support reaches the threshold; `KeyError` when no item is frequent |
| WeightedApriori.PairSupportBelowItems | apriori_algorithm.py:182-204 | a pair's count never exceeds the counts that admitted its items to level 1 |
| Numeric.Ceil | apriori_algorithm.py:168 | `ceil`: the least integer not below x |
| Ordering.SortSet | apriori_algorithm.py:117 | `sorted` of a set: strictly ascending and holding exactly the set's elements |
| Ordering.AscendingUnique | apriori_algorithm.py:146 | only one ascending sequence has a given set of elements, so `sorted` is determined by its input |
| Ordering.LexStrictTotal | apriori_algorithm.py:94 | Python's lexicographic comparison of strings and tuples is a strict total order |
| Associations.Reverse | association_creation.py:91 | `s[::-1]` puts element i at position \|s\|-1-i |
| Associations.ReverseReverse | association_creation.py:91 | reversing twice gives back the list |
| Associations.ExpandedAt | association_creation.py:84-93 | position 2i of the expansion is itemset i, and position 2i+1 is its reverse |
| Associations.AllAssociations | association_creation.py:84-93 | 2n lists for n itemsets; each itemset's copy is followed at once by its reverse |
| Associations.Confidence | association_creation.py:32-52 | the fraction of transactions holding every item, in [0,1]; `ZeroDivisionError` iff there are no transactions |
| Associations.ConfidenceSymmetric | association_creation.py:38-50 | both orders of a pair are held by the same transactions |
| Associations.CountCovering | association_creation.py:16-21 | counts the keys of `all_gt` that contain the left item as a substring |
| Associations.Coverage | association_creation.py:15-23 | that count divided by the number of keys, in [0,1]; `ZeroDivisionError` iff there are none |
| Associations.FilteredIsSubsequence | association_creation.py:70-76 | the kept associations are an in-order subsequence of the input, holding exactly the input associations that pass both strict thresholds |
| Associations.FilteredAppend | association_creation.py:70-74 | one more association is appended iff it passes |
| Associations.FilteredEmptyAboveOne | association_creation.py:68-73 | with a confidence threshold of at least 1 nothing passes, as a confidence is at most 1 |
| Associations.EmptyAssociationIff | association_creation.py:72 | the expansion has an empty association iff some frequent itemset is empty |
| Associations.FilterAssociations | association_creation.py:70-76 | [] for no associations; otherwise `ZeroDivisionError` for no transactions, `IndexError` when some association is empty, and else the filtered subsequence |
| Associations.CreateAssociations | association_creation.py:65-76 | [] for no itemsets; otherwise fails iff there are no transactions or some itemset is empty; else the expansion filtered with threshold ceil(min_confidence·n), which is [] whenever min_confidence > 0 |
| Numeric.CeilPositive | association_creation.py:68 | the ceiling of a positive real is at least 1 |
| TreeModification.Inverse | tree_modification.py:14-23 | the inverted map's keys are exactly the values that occur |
| TreeModification.SwapKeyValue | tree_modification.py:14-23 | k is in result[v] iff v is in input[k]; the keys are exactly the values that occur |
| TreeModification.InverseTwice | tree_modification.py:14-23 | swapping twice gives the input without its empty entries |
| TreeModification.GatheredStep | tree_modification.py:72-77 | visiting one more child adds that child's genes to the node's entry |
| TreeModification.TermGenes.GeneToParent | tree_modification.py:68-79 | `KeyError` iff the node has no children entry, and then nothing changes; otherwise, when it has children, only the node's entry changes, to its old genes (∅ if absent) united with the genes of its children that have an entry |
| TreeModification.TermGenes.GatherChild | tree_modification.py:73-77 | one child: the node's entry (created empty) gains the child's genes |
| TreeModification.TermGenes.AddGenes | tree_modification.py:76-77 | the node's entry gains exactly the carried genes; nothing else changes |
| TreeModification.LeavesAreNobodysParent | tree_modification.py:34-41 | the leaves computed from both maps are exactly the terms with parents that are nobody's parent |
| TreeModification.LeafNodes | tree_modification.py:39-41 | the leaf loop keeps exactly the nodes that are not keys of the parent-to-children map |
| TreeModification.SeedWorklist | tree_modification.py:45-47 | the worklist starts with exactly the parents of the leaves |
| TreeModification.ChildrenOfInverse | tree_modification.py:28 | a parent's entry in the inverted hierarchy is exactly its children, and is non-empty |
| TreeModification.InitiallyPropagated | tree_modification.py:45-47 | before the loop, every parent is reachable from the seeded worklist, and every gene is one of the term's own |
| TreeModification.ReachedStep | tree_modification.py:49-55 | one turn keeps every parent that has parents either given an entry or still reachable from the worklist |
| TreeModification.PendingFromLeaves | tree_modification.py:45-47 | on a ranked hierarchy every parent is reachable by climbing from a parent of a leaf |
| TreeModification.StepGathers | tree_modification.py:52-55 | one turn changes only the popped node's entry: nothing for a node without parents; otherwise the entry is created if missing, keeps its genes and contains the genes of each child |
| TreeModification.PendingAfterPop | tree_modification.py:49-54 | a parent still reachable from the worklist stays reachable after a pop that queues the popped node's parents |
| TreeModification.DerivedUp | tree_modification.py:72-77 | a gene carried from a child to its parent still comes from a descendant of the parent |
| TreeModification.PropagatedStep | tree_modification.py:49-55 | one turn keeps every edge either satisfied or pending |
| TreeModification.SoundStep | tree_modification.py:52-55 | one turn invents no gene |
| TreeModification.StepPreserves | tree_modification.py:49-55 | one turn keeps the whole loop invariant: edges satisfied or pending, genes sound, initial sets kept, roots untouched, parents with parents entered or pending |
| TreeModification.WeightDecreases | tree_modification.py:49-54 | on a ranked hierarchy the worklist's weight (Σ (N+1)^rank) drops with every pop, so the loop ends |
| TreeModification.Drained | tree_modification.py:49-57 | once the worklist is empty, every child's genes are in each parent that is a key, and every parent that is a key has an entry |
| TreeModification.Visit | tree_modification.py:50-55 | one turn: the node is popped, its parents are queued, and `gene_to_parent` updates its entry |
| TreeModification.Drain | tree_modification.py:49-55 | the worklist loop ends with the invariant and an empty worklist |
| TreeModification.GeneToAllParents | tree_modification.py:27-57 | on an acyclic hierarchy: genes(child) ⊆ genes(parent) on every edge whose parent is a key; the inverted annotations are kept; every gene comes from the term or a descendant; terms without parents keep their genes; only annotated terms and parents get an entry, and every parent that is itself a key gets one (possibly empty) |
| OntologyParsing.HpoParsingOnto | ontology_parsing.py:2-21 | the loop computes the fold of the line rule; it fails only with `KeyError` |
| OntologyParsing.HpoErrPersists | ontology_parsing.py:8-19 | once a line raises, later lines do not matter |
| OntologyParsing.HpoNoIdYet | ontology_parsing.py:8-19 | before the first `id:` line nothing is recorded and the current key is '' |
| OntologyParsing.HpoIsABeforeId | ontology_parsing.py:11-15 | after any header lines without `id:`, an `is_a:` line raises `KeyError`, whatever follows |
| OntologyParsing.HpoLinesClosed | ontology_parsing.py:11-19 | every listed parent has a list of its own |
| OntologyParsing.HpoKeysKept | ontology_parsing.py:11-19 | every `id:` slice [4:14] and every `is_a:` slice [6:16] ends up a key |
| OntologyParsing.HpoIsA | ontology_parsing.py:11-15 | `is_a:` appends line[6:16] to the current list, also as a duplicate; a parent not yet listed has its own list reset to [] first |
| OntologyParsing.HpoIdAndTerm | ontology_parsing.py:9-19 | `[Term]` resets the current key to '' and changes no list; `id:` makes line[4:14] current and keeps an existing list |
| OntologyParsing.ParsingGo | ontology_parsing.py:24-49 | the loop computes the fold of the line rule; it fails only with `KeyError` |
| OntologyParsing.GoErrPersists | ontology_parsing.py:31-47 | once a line raises, later lines do not matter |
| OntologyParsing.GoNeutralPrefix | ontology_parsing.py:31-47 | lines matching none of the four tests leave the reader's initial state unchanged |
| OntologyParsing.GoFirstTerm | ontology_parsing.py:32-37 | after any such header lines, the first `Term` line stores key '' with [] |
| OntologyParsing.GoTermFirst | ontology_parsing.py:32-37 | a `Term` line wins over every other test; it commits the collected parents unless the stanza is obsolete, then starts afresh |
| OntologyParsing.GoDoubleObsolete | ontology_parsing.py:42-45 | a second `is_obsolete` line under an id removes a missing key, raising `KeyError` |
| OntologyParsing.GoObsoleteIgnoresIsA | ontology_parsing.py:46-47 | `is_a:` lines in an obsolete stanza collect nothing |
| OntologyParsing.GoLastStanzaNotStored | ontology_parsing.py:31-49 | after any lines without `Term`, every entry is either [] (from an `id:` line) or unchanged from before them, so the last stanza's parents are never stored |
| AnnotationParsing.HpoParsingAnn | annotation_parsing.py:2-20 | the loop computes the fold of the line rule and fails with the fold's error |
| AnnotationParsing.HpoAnnErrPersists | annotation_parsing.py:7-18 | once a line raises, later lines do not matter |
| AnnotationParsing.HpoAnnLinesListed | annotation_parsing.py:14-18 | the symbols that have a list are exactly the symbols recorded for the ids seen |
| AnnotationParsing.HpoAnnSymbolCases | annotation_parsing.py:14-18 | `KeyError` iff the id is known and no id carries this symbol; a new id resets its symbol's list to just this term |
| AnnotationParsing.HpoAnnShortLine | annotation_parsing.py:8-12 | `#` lines change nothing; fewer than three tabs raise `IndexError` |
| AnnotationParsing.HpoAnnTermPrefix | annotation_parsing.py:12-18 | the symbol's list ends with the first ten characters of column 4; for a known gene id it is the previous list plus that term |
| AnnotationParsing.Append | annotation_parsing.py:41-51 | `m[k].append(v)` after creating the list: only k's list changes, by v appended |
| AnnotationParsing.AddSynonymsProps | annotation_parsing.py:55-58 | the synonym loop keeps the list as a prefix, adds exactly the missing synonyms and never a duplicate |
| AnnotationParsing.ParsingAnn | annotation_parsing.py:23-60 | the loop computes the fold of the line rule; it fails only with `IndexError` |
| AnnotationParsing.GoAnnErrPersists | annotation_parsing.py:30-38 | once a line raises, later lines do not matter |
| AnnotationParsing.SynonymsAdded | annotation_parsing.py:53-58 | adding synonyms to a gene's list (started as [gene]) keeps every list well formed |
| AnnotationParsing.GoAnnLineSynonyms | annotation_parsing.py:53-58 | one line keeps every synonym list well formed |
| AnnotationParsing.GoAnnSynonyms | annotation_parsing.py:53-58 | after any file, each gene's synonym list starts with the gene and has no duplicate |
| AnnotationParsing.GoAnnRouting | annotation_parsing.py:40-51 | a kept row adds its term to exactly one of bp, mf, cc (`P`, then `F`, else cc); the other two are unchanged |
| AnnotationParsing.GoAnnSkipped | annotation_parsing.py:31-38 | `!` lines and rows without `NOT` change nothing; fewer than 4 columns, or fewer than 11 on a kept row, raise `IndexError` |
| Text.Slice | ontology_parsing.py:12 | Python slicing with both ends clamped to the length |
| Text.SplitPieces | annotation_parsing.py:9 | `split` gives one piece more than there are separators, none holding one |
| Text.JoinSplit | annotation_parsing.py:9 | joining the pieces again gives back the line |
| Text.SplitJoin | annotation_parsing.py:55 | splitting a join of separator-free pieces gives back the pieces |
| Text.ContainsAt | annotation_parsing.py:34 | the substring test holds iff the pattern occurs at some offset |

## Left out

- Files: `open()` and reading are not modelled. A file is the sequence of its
  lines, each with its terminator as Python's iteration yields it.
- Console output: every `print` call.
- File output: `output_to_file`, which writes files and formats percentages.
- Driver scripts: `main.py` and `main_runner.py`, which handle the command
  line and run parameter sweeps.
- Floating point: specificity, information content and the thresholds are
  exact reals, and rounding is not modelled. The factor `-log10(1/len(items))`
  is the parameter `icScale` of `GenerateAllFrequentItemsets` and `Apriori`.
  It is not computed, since logarithms are not modelled. The `len(items) == 0`
  division it performs is still an error.
- Iteration order: dict and set iteration order is left unspecified. Loops
  over a dict or set pick an arbitrary remaining element.
- Lists as sets: lists of terms in transactions and hierarchies are taken as
  sets (`map<string, set<string>>`). Their order and repetition do not affect
  the results modelled.
- Object identity: the `is not` tests are modelled as value inequality
  (apriori_algorithm.py:95 and 110, ontology_parsing.py:44). This agrees with
  CPython for three reasons:
  - In the size-2 join, level 1 is built from `items`, which the model takes
    as a set, so it holds no duplicates. Two list entries that are not the
    same object are then different strings, and the same entry is equal to
    itself.
  - Intersection sizes and `itemset_size-1` are small integers, which CPython
    caches.
  - An empty string, literal or sliced, is CPython's single empty-string
    object.
- Acyclicity: Python cannot express it. `GeneToAllParents` takes a ghost rank
  with rank(parent) < rank(child) as its precondition, which stands for an
  acyclic hierarchy. On a cyclic one the source may not terminate.
- Four element-by-element loops of `gene_to_all_parents` are set unions, not
  loops. Adding elements one by one gives the same set, whatever the order:
  - the `all_nodes` loops (tree_modification.py:34-37) are
    `treeParentChild.Keys + treeChildParent.Keys`;
  - the loop that adds a leaf's parents to `to_check`
    (tree_modification.py:46-47) is `toCheck + treeChildParent[node]` in
    `SeedWorklist`;
  - the loop that adds a popped node's parents (tree_modification.py:53-54)
    is `work + treeChildParent[checking]` in `Visit`.
- Level 0 of the frequent-itemset table: the list holding the empty frozenset
  is supplied by `TupleLevel` rather than stored. Levels of single items and
  levels of tuples are kept in separate fields of `FrequentTable`.
- Level sizes above 2: `GenerateSelectivelyJoinedItemsets` and
  `ApplyAprioriPruning` are modelled for every size, but the search never
  calls them above size 2.
- WeightedApriori.Apriori: its error clauses give the `ZeroDivisionError`
  cases, and the `KeyError` raised when no item is frequent. The complete
  error condition of the table it reads is stated on
  `GenerateAllFrequentItemsets`.
- WeightedApriori.GenerateCandidateItemsets: it states that a missing level
  k-1 fails, but not the full error condition of the pruning step. That
  condition is stated on `ApplyAprioriPruning`.
- WeightedApriori.FrequentPairs: it states when the weighted-support lookups
  fail, but not which of `IndexError` and `KeyError` is raised. That is
  stated on `WeightedSupport`.
- TreeModification.GeneToAllParents: the final map is characterised by the
  properties in its contract, not as one closed-form map. Its genes on each
  edge are upward closed, kept, derived from descendants, and untouched at
  roots.
- Quirks kept as written:
  - coverage is a substring test on the keys of `all_gt`;
  - a positive `min_confidence` empties the result of `create_associations`;
  - `parsing_ann` keeps only rows containing `NOT`;
  - an `is_a:` line resets the parent's list in `hpo_parsing_onto`;
  - `parsing_go` never stores the last stanza.

  These are stated as properties above, not corrected.
