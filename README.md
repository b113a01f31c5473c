# Association-rule post-processing, modelled in Dafny

The Streamlit app mines association rules from shopping transactions. A library
finds the frequent itemsets and generates the rules with their support,
confidence and lift. The app then post-processes the rule table, and that
post-processing is what this project models:

1. It keeps the rules whose confidence is at least 0.5, in table order.
2. It sorts the rules by lift, descending, in place.
3. It gives every rule a combined key: the antecedent items sorted, followed by
   the consequent items sorted, and that concatenation sorted again.
4. It removes redundant rules. For each distinct key it looks up the first
   position that carries it (`list.index`) and keeps the rows at those
   positions (`iloc`). The distinct keys come from a Python `set`, so they are
   visited in no particular order.
5. It sorts the kept rules by lift, descending, in place.

Modules, one per step:

- `Rules` (rules.dfy): the `Rule` record, the 0.5 threshold, and the
  "lift non-increasing" ordering.
- `Keys` (keys.dfy): Python's `sorted` on item lists, and the combined key.
- `ConfidenceFilter` (filter.dfy): the boolean-mask filter.
- `LiftSort` (liftsort.dfy): the in-place sort of an `array<Rule>`. Its
  contract is "permutation, ordered by non-increasing lift". Ties may come
  out in any order, because the library's default sort is not stable.
- `Redundancy` (redundancy.dfy): first-occurrence removal.
  - `IndexOf` is `list.index`; a missing key gives `None`, where Python raises
    ValueError.
  - `FirstOccurrenceIndices` visits the distinct keys in an order it does not
    fix (`:|`), like iterating a Python set.
  - It is generic in the key type and in the function that maps a row to its key.
- `Pipeline` (pipeline.dfy): `PostProcess` runs the steps in order. A pure
  function could not call the in-place array sort, so this is a method.

Items are integer codes, ordered as integers. The app's items are strings.
`KeyIgnoresSplit` shows, for integer order, that two keys are equal exactly when
the rules have the same item multiset. Its proof uses only that the order is
total, so the same argument holds for any total order on items, and Python's
string comparison is one. Support, confidence and
lift are `real` values that are only compared.

The model follows the code where it differs from a common formulation of this
step:
- A common formulation keeps one rule per key in input order, breaking lift
  ties by confidence. The code keeps the first row, per key, of a table sorted
  by lift with an unstable sort. So among rules tied on lift, the one kept is
  unspecified. The output is then sorted by lift again.
- A common formulation builds the key from the set union of antecedent and
  consequent. The code sorts their concatenation, which is the multiset union.
  The two agree when, as the library guarantees, the two sides are disjoint.

## Model

| member | source | states |
|---|---|---|
| `Keys.SortItems` | app.py:74-76 | Python's `sorted` on an item list gives an ascending list with the same items and multiplicities |
| `Keys.SortedUnique` | app.py:74-76 | two sorted lists with the same multiset of items are equal, so a sorted list is a canonical form of its items |
| `Keys.SortItemsOfSorted` | app.py:76 | re-sorting an already sorted list changes nothing |
| `Keys.CombinedKey` | app.py:74-76 | a rule's key is sorted, and its items are exactly those of the antecedents plus the consequents, with multiplicity |
| `Keys.KeyIgnoresSplit` | app.py:74-76 | two rules have the same key if and only if they have the same item multiset, however the items are split between antecedent and consequent |
| `Keys.KeyIsSortedConcatenation` | app.py:74-76 | sorting each side first has no effect: the key is the sorted concatenation of both sides |
| `ConfidenceFilter.FilterByConfidence` | app.py:58 | the boolean mask keeps only rows with confidence >= 0.5, and the table does not grow |
| `ConfidenceFilter.FilterKeepsExactlyConfident` | app.py:58 | each rule with confidence >= 0.5 is kept as often as it occurs; no other rule is kept; the table does not grow |
| `ConfidenceFilter.FilterDistributes` | app.py:58 | filtering a concatenation is concatenating the filtered parts, so kept rules keep their relative order |
| `ConfidenceFilter.FilterSingleton` | app.py:58 | a single rule is kept exactly when its confidence reaches the threshold |
| `ConfidenceFilter.FilterIdempotent` | app.py:58 | applying the filter twice is the same as applying it once |
| `LiftSort.SortByLift` | app.py:59 | the in-place sort leaves a permutation of the table, ordered by non-increasing lift |
| `Pipeline.SortedCopy` | app.py:59-81 | both lift sorts, of the confident rules (l.59) and of the redundancy-free table (l.81): sorting by lift yields the same rows, with the same multiplicities, ordered by non-increasing lift |
| `Redundancy.KeysOf` | app.py:77 | `list(ma_X)` has one key per row, the key of the row at the same position |
| `Redundancy.KeySet` | app.py:78 | the set of keys contains every key in the list and nothing else |
| `Redundancy.KeySetBound` | app.py:78 | there are no more distinct keys than rows |
| `Redundancy.KeySetOfDistinct` | app.py:78 | when no key repeats, there are exactly as many distinct keys as rows |
| `Redundancy.IndexOf` | app.py:79 | `list.index` returns the first position holding the key, and fails exactly when the key is absent |
| `Redundancy.FirstOccurrenceIndices` | app.py:78-79 | the collected positions are exactly the first occurrences of the keys, each collected once, one per distinct key |
| `Redundancy.FirstOccurrenceExists` | app.py:79 | every key in the list has a first occurrence |
| `Redundancy.FirstOccurrenceHasMaxLift` | app.py:79 | in a table sorted by descending lift, the first row with a key has lift >= every row sharing that key |
| `Redundancy.SelectRows` | app.py:80 | `iloc` returns one row per requested position, the row at that position, unchanged |
| `Redundancy.SelectionHasMaxLift` | app.py:80 | every row selected at a first-occurrence position has the highest lift among the rows with its key |
| `Redundancy.SelectionHasDistinctKeys` | app.py:80 | the rows selected at first-occurrence positions have pairwise distinct keys |
| `Redundancy.SelectionCoversKeys` | app.py:80 | selecting every first occurrence keeps every key of the table |
| `Redundancy.DistinctKeysOccurOnce` | app.py:80 | in a table with distinct keys every row occurs at most once |
| `Redundancy.DistinctKeysPermutation` | app.py:81 | reordering a table with distinct keys keeps its keys distinct |
| `Redundancy.KeysOfPermutation` | app.py:81 | reordering a table keeps the set of keys that occur in it |
| `Redundancy.RemovalIdempotent` | app.py:77-80 | running the removal again on a table whose keys are already distinct, such as its own output, selects every row of that table exactly as often as it occurs: the removal is idempotent up to row order |
| `Pipeline.ResultRowsAreConfident` | app.py:58-80 | every output row is an input rule with confidence >= 0.5, unchanged |
| `Pipeline.ResultCoversKeys` | app.py:77-80 | the key of every confident input rule is the key of some output row |
| `Pipeline.ResultHasMaxLift` | app.py:59-81 | every output row has lift >= every confident input rule that shares its key |
| `Pipeline.PostProcess` | app.py:58-81 | the intermediate table is the filtered rules, sorted by lift. The kept positions are exactly the first occurrences of each key, with none repeated. The output is a permutation of those rows, sorted by lift, with pairwise distinct keys. It covers every key and has one row per distinct key, so it is no longer than its input. Each output row is a confident input rule with the highest lift for its key |

## Left out

- Frequent-itemset mining and rule generation (app.py:44, app.py:57) are
  library calls whose code is not part of this model. Their output is the
  input sequence of `Rule` records, so the lift threshold applied by
  `association_rules` is not modelled either.
- Reading `shopping_trends.csv` and the one-hot encoding (app.py:13-17) build
  the mining input (and the heatmap columns), and mining is not modelled. The
  top-10 item counts (app.py:20-21) only feed the charts.
- Sorting the frequent itemsets by support (app.py:45) only orders the mining
  output before rule generation, which is not modelled. `Rule` keeps five of
  the columns `association_rules` returns. The other columns are carried
  unchanged through the filter, the sorts and `iloc` into the written table
  (app.py:87), and are not represented.
- The correlation heatmap, all charts and all Streamlit widgets and tables
  (app.py:8-10, 23-36, 39-41, 47-54, 61-71, 83-84) are left out: they are
  presentation only. The sidebar thresholds feed only the mining call.
- Writing `filtered_association_rules.csv` (app.py:87) is file I/O; the model
  stops at the table that is written.
- Floating-point arithmetic is not modelled: metrics are reals that are only
  compared, and NaN values are not represented.
- `SelectRows` requires every position to be in range, where `iloc` would
  raise IndexError. The positions always come from `list.index` on a list of
  the same length, so that error cannot occur and is not modelled.
- Item names are integer codes rather than strings. The key's item order is
  therefore integer order, not string order. Key equality, the only thing the
  removal uses, does not depend on that order.
- `LiftSort.SortByLift` is an insertion sort, but its contract fixes neither the
  algorithm nor the order of rows tied on lift. The library's default sort is
  not stable, so the contract promises only a permutation ordered by
  non-increasing lift.
