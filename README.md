# Apriori market-basket analysis, modelled in Dafny

This project models the market-basket core of an offline analytics toolkit,
`models/market_basket.py`. The core has four parts:

- **Transaction parsing.** Each record's `items` field is a `;`-separated list
  of product ids. Each piece is stripped of whitespace, empty pieces are
  dropped, and the rest are collected into a set (`parse_transactions`,
  line 15).
- **Frequent-itemset mining** by the level-wise Apriori search (`apriori`):
  - Level 1 counts single items.
  - Level k joins pairs of frequent (k−1)-itemsets whose union has k items.
  - It prunes every candidate that has an infrequent (k−1)-subset.
  - It counts the surviving candidates over the transactions.
  - It keeps those whose support count/n is at least `min_support`.
- **Association-rule generation** (`generate_rules`). Every frequent itemset
  X with |X| ≥ 2 is split into an antecedent A and a consequent X − A. Each
  split is scored:
  - support = supp(X)
  - confidence = supp(X)/supp(A)
  - lift = confidence/supp(B)
  - leverage = supp(X) − supp(A)·supp(B)

  It keeps the rules whose confidence reaches `min_confidence`, then ranks
  them by (lift, confidence), highest first.
- **The pipeline** (`run_market_basket`) parses, mines, generates and keeps
  the first `top_k` rules.

## Layout

| File | Module | What it holds |
|---|---|---|
| `sets.dfy` | `Sets` | Set and sequence helpers. The listing of a set, as `list(s)` does. `itertools.combinations`, taken as sets. |
| `itemsets.dfy` | `Itemsets` | The specification of mining: `Count`, `Support`, `IsFrequent`, `IsFrequentTable`. Their laws: downward closure, bounds, uniqueness. |
| `apriori.dfy` | `Apriori` | The miner as imperative code: dictionary tallies, the pairwise join with its prune, the per-level filter, the `while` loop. Each step is proved against `Itemsets`. |
| `items.dfy` | `Items` | Python's string order, sorting item sets into tuples, `str.strip`, `str.split`, and the parse of an `items` field. |
| `rules.dfy` | `Rules` | The rule generator: the per-split body, the per-itemset loops, the outer loop over the table, and the ranking sort. |
| `pipeline.dfy` | `MarketBasket` | The `top_k` slice, `run_market_basket`, and what is guaranteed about the rules of a frequent-itemset table. |
| `scenario.dfy` | `Scenario` | A worked example with five baskets over three items, proved in full. |

Items are a type parameter `T` in the miner. Itemsets are `set<T>` and
transactions are `seq<set<T>>`. A support is the exact rational count/n, as
a `real`. The dictionaries the source mutates are `map`s that its loops
reassign. A Python dict iterates in insertion order, but here every dict is
filled by iterating over frozensets, whose order depends on string hashing,
so no iteration order of the core is fixed. The model draws each next
element with `:|`, so every proof holds for any iteration order. The rules carry string items, as the
parser produces them.

What the code does at its edges, and the model with it:

- The code does not check that either threshold lies in (0, 1], so the
  model accepts any real `min_support` and `min_confidence`.
- The ranking key is (lift, confidence) and nothing else, so rules with
  equal keys keep the order in which they were emitted.
- The code rounds the four metrics to four decimals before sorting. The
  model keeps them exact; see "Left out".
- An empty transaction list gives an empty tally, so the code never divides
  by n = 0. The model has the same shape: `KeepFrequent` demands an empty
  tally when n = 0.

## Model

| member | source | states |
|---|---|---|
| Sets.SetToSeq | models/market_basket.py:33 | `list(current_L)`: a repeat-free sequence of exactly the set's elements, of the set's size |
| Sets.Combinations | models/market_basket.py:65 | `combinations(items, r)`, taken as sets: the antecedent candidates of size r, built by choosing or skipping each element in turn |
| Sets.CombinationsMember | models/market_basket.py:64-65 | a set is among `combinations(xs, r)`, taken as sets, iff it is a subset of the elements of `xs` with r members |
| Sets.CombinationsSpec | models/market_basket.py:64-65 | the same for every set at once: the antecedents enumerated for size r are exactly the r-subsets of the itemset |
| Sets.DistinctPermutation | models/market_basket.py:84 | a permutation of a repeat-free list is repeat-free |
| Itemsets.CountPositive | models/market_basket.py:43-47 | an itemset's count is positive iff some transaction contains it |
| Itemsets.CountAntitone | models/market_basket.py:46 | a superset is contained in at most as many transactions |
| Itemsets.SupportAntitone | models/market_basket.py:49 | a superset has at most the support of its subset |
| Itemsets.FrequentBounds | models/market_basket.py:21-31 | every frequent itemset lies inside some transaction, so 1 ≤ size ≤ largest transaction and min_support ≤ support, with 0 < support ≤ 1 |
| Itemsets.DownwardClosed | models/market_basket.py:39-41 | every non-empty subset of a frequent itemset is frequent, with support at least as large |
| Itemsets.FrequentSubsetOfSize | models/market_basket.py:31 | a frequent itemset has a frequent subset of every smaller size, so a level with no frequent sets ends the search |
| Itemsets.NoTransactionsNothingFrequent | models/market_basket.py:21-26 | with no transactions the frequent-itemset table is empty |
| Itemsets.FrequentTableUnique | models/market_basket.py:20-54 | the table is determined by the transactions and the threshold, whatever the iteration order |
| Apriori.AllDropOneIn | models/market_basket.py:40 | the prune test: removing any one element of the union leaves a set of the current level |
| Apriori.DropOneIsAllSubsets | models/market_basket.py:40 | "every (k−1)-subset of u is at the level" iff "u minus each one of its elements is at the level" |
| Apriori.JoinComplete | models/market_basket.py:32-41 | a k-set, k ≥ 2, all of whose (k−1)-subsets are at the level, is the union of two different sets of that level: the join loses nothing |
| Apriori.CountOf | models/market_basket.py:22-25 | the `defaultdict(int)` read behind `+= 1`: the tallied count of a set, 0 when it has no entry |
| Apriori.TallyItems | models/market_basket.py:24-25 | one transaction adds 1 to the count of each of its singletons and changes nothing else |
| Apriori.CountItems | models/market_basket.py:22-25 | `item_counts` holds exactly the singletons that occur, each with its exact transaction count |
| Apriori.JoinedAll | models/market_basket.py:34-38 | the index pairs i < j of the listed level reach exactly the unions of two different level sets |
| Apriori.KeptAll | models/market_basket.py:34-41 | after the double loop, the candidates are exactly the k-set unions of two level sets whose (k−1)-subsets are all at the level |
| Apriori.JoinAndPrune | models/market_basket.py:32-41 | the candidate set is exactly the joined and pruned k-sets |
| Apriori.TallyCandidates | models/market_basket.py:45-47 | one transaction adds 1 to each candidate it contains and changes nothing else |
| Apriori.CountCandidates | models/market_basket.py:43-47 | `counts` holds exactly the candidates that occur, each with its exact transaction count |
| Apriori.KeepFrequent | models/market_basket.py:26 | the filter comprehensions of lines 26 and 49: keep each tallied itemset whose count/n reaches `min_support`, mapped to count/n; the tally must be empty when n = 0 |
| Apriori.LevelOneExact | models/market_basket.py:26 | `L` holds exactly the frequent 1-itemsets, each with its support; with no transactions the tally is empty, so nothing is divided |
| Apriori.LevelExact | models/market_basket.py:49 | `Lk` holds exactly the frequent k-itemsets, each with its support (pruning and joining lose none) |
| Apriori.Apriori | models/market_basket.py:20-54 | the result maps exactly the frequent itemsets (count/n ≥ min_support, count the exact number of containing transactions) to their supports; the `while` loop terminates, its level k never exceeding the largest transaction size plus one (the loop's decreasing measure) |
| Items.Less | models/market_basket.py:77-78 | Python's `<` on `str`: lexicographic by code point, a proper prefix below its extensions |
| Items.LessTotal | models/market_basket.py:77-78 | Python's string order is total and asymmetric on distinct strings |
| Items.Insert | models/market_basket.py:77-78 | inserting into an ascending tuple keeps it ascending and adds exactly the new item |
| Items.SortedItems | models/market_basket.py:77-78 | `tuple(sorted(A))`: a strictly ascending tuple of exactly the members of A |
| Items.SortedUnique | models/market_basket.py:77-78 | the ascending tuple of a set is unique |
| Items.IsSpace | models/market_basket.py:15 | `str.isspace`, the characters `strip()` removes: U+0009–U+000D, U+001C–U+001F, U+0020, U+0085, U+00A0, U+1680, U+2000–U+200A, U+2028, U+2029, U+202F, U+205F and U+3000, the Unicode space separators (Zs) and the characters of bidirectional class WS, B and S |
| Items.Strip | models/market_basket.py:15 | `x.strip()`: whitespace cut from the left end, then from the right end |
| Items.StripSpec | models/market_basket.py:15 | `x.strip()` is a slice of x with only whitespace cut off either end, and no whitespace at its own ends |
| Items.Split | models/market_basket.py:15 | `split(";")`: at least one piece; the pieces between consecutive separators, empty ones included |
| Items.SplitJoin | models/market_basket.py:15 | `split(";")` returns pieces without `;` that re-join to the original string |
| Items.ItemsField | models/market_basket.py:15 | `r.get("items", "")`: the `items` column of a record, the empty string when the column is absent |
| Items.ParseItems | models/market_basket.py:15-16 | the item set of one `items` field: the stripped pieces of its `;`-split that are not blank, as a set |
| Items.ParseItemsSpec | models/market_basket.py:15-16 | every parsed item id is non-empty, contains no `;`, and has no whitespace at either end; every non-blank piece gives an item id |
| Items.Transactions | models/market_basket.py:13-17 | one transaction per record, of the same number, each the parsed `items` field |
| Items.ParseTransactions | models/market_basket.py:13-17 | the loop builds exactly `Transactions(records)`: one transaction per record, in order, each the parsed `items` field (missing field: empty) |
| Rules.Get | models/market_basket.py:68-69 | `supp.get(s, 0.0)`: the table's support of s, 0.0 when s is not a key |
| Rules.RuleFor | models/market_basket.py:66-83 | for one antecedent A of X, a rule is emitted iff A → X − A qualifies; the emitted rule has the sorted tuples of A and X − A and the four metrics; sA = 0 is skipped, never divided by |
| Rules.EmittedForStep | models/market_basket.py:65-83 | one more antecedent keeps this invariant: rules sound, every qualifying antecedent seen so far covered, no antecedent twice |
| Rules.RulesForItemset | models/market_basket.py:63-83 | for one itemset X of size ≥ 2: each rule splits X, every qualifying split of X has a rule, no antecedent appears twice |
| Rules.CoversDoneStep | models/market_basket.py:60-83 | after one more itemset of the table, every qualifying pair whose union has been visited has a rule |
| Rules.DistinctStep | models/market_basket.py:60-83 | rules of different itemsets never coincide, so the emitted list stays repeat-free |
| Rules.RanksAbove | models/market_basket.py:84 | the sort key `(d["lift"], d["confidence"])` with `reverse=True`: a rule ranks at least as high as another when its (lift, confidence) pair is lexicographically ≥ |
| Rules.InsertByRank | models/market_basket.py:84 | inserting into a (lift, confidence)-ranked list keeps it ranked and adds exactly one copy of the rule |
| Rules.InsertAfterEqual | models/market_basket.py:84 | the inserted rule lands behind every rule ranking at least as high and in front of every rule it outranks, so equal keys keep their order as in Python's stable sort |
| Rules.SortByRank | models/market_basket.py:84 | the sorted list is a permutation of the input, and its (lift, confidence) keys are lexicographically non-increasing |
| Rules.PermutationKeeps | models/market_basket.py:84 | sorting neither adds nor loses a rule and introduces no repeats |
| Rules.GenerateRules | models/market_basket.py:57-85 | every returned rule has non-empty disjoint A and B, A ∪ B in the table with size ≥ 2, sA ≠ 0, sB > 0, confidence = sX/sA ≥ min_confidence, lift = confidence/sB, leverage = sX − sA·sB, and sorted tuples; every qualifying split is returned; no rule twice; ranked by (lift, confidence) |
| Rules.RuleDetermined | models/market_basket.py:76-83 | a rule of the table is fixed by its antecedent and consequent sets |
| Rules.RankedRuleListsArePermutations | models/market_basket.py:57-85 | any two results allowed for the same table are permutations of each other: only the tie order is open |
| MarketBasket.TopK | models/market_basket.py:92 | `rules[:top_k]` is a prefix; for top_k ≥ 0 it has at most top_k rules and is the whole list when shorter; a negative top_k drops the last −top_k rules |
| MarketBasket.TopKBest | models/market_basket.py:84-92 | the kept rules stay ranked and each ranks at least as high as every rule cut off |
| MarketBasket.RunMarketBasket | models/market_basket.py:88-92 | the result is the `top_k` slice of a ranked rule list of the frequent-itemset table of the parsed transactions |
| MarketBasket.NoTransactionsNoRules | models/market_basket.py:21-26 | no transactions give no rules |
| MarketBasket.SplitsOfFrequent | models/market_basket.py:68-73 | on a frequent-itemset table both halves A and X − A of every split are keys, each with support ≥ supp(X) > 0, so the `sA == 0` skip and the `sB > 0` test never fire, and the split qualifies iff supp(X)/supp(A) ≥ min_confidence |
| MarketBasket.RuleMetricBounds | models/market_basket.py:72-75 | a rule of a frequent-itemset table has support in [min_support, 1]; its confidence is count(A ∪ B)/count(A) and lies in [min_confidence, 1]; its lift is positive |
| Scenario.ScenarioTable | models/market_basket.py:20-54 | on the five example baskets at 0.4 the table is {A: 0.8, B: 0.8, C: 0.4, AB: 0.6, BC: 0.4} |
| Scenario.ScenarioTopTwo | models/market_basket.py:57-92 | for that table at confidence 0.5 the top two rules are C → B (confidence 1, lift 1.25), then B → C (confidence 0.5, lift 1.25) |
| Scenario.ScenarioPipeline | models/market_basket.py:88-92 | the example end to end, from baskets to the two returned rules |

## Left out

- Reading the CSV file (`load_csv`, line 12) is not modelled. A record is a map from column name to its text, and a missing `items` column reads as the empty string.
- The `str(...)` conversion on line 15 is not modelled. A pandas value that is not a string, such as NaN, is outside the model.
- Rules.RuleFor: does not round the four metrics to four decimals (lines 79-82). Metrics are exact rationals.
- Rules.SortByRank: sorts on the unrounded lift and confidence, while the code sorts on the rounded values. Two rules that differ only past the fourth decimal may therefore be ordered differently.
- Rules.GenerateRules: states only the (lift, confidence) order. The sort is stable, so rules with equal keys keep their emission order, and that order follows the iteration order of the frequent-itemset dict and of each frozenset, which depends on string hashing. The model leaves it open. Rules.RankedRuleListsArePermutations shows that this is the only freedom.
- Rules.SortByRank: its contract states ranking and permutation, not stability. Stability is stated per insertion by Rules.InsertAfterEqual: a rule goes behind every rule with an equal key.
- The default arguments are not modelled: `min_support=0.05` (line 20), `min_confidence=0.3` (line 57), and `min_support=0.05`, `min_confidence=0.35`, `top_k=10` (line 88). Every model operation takes its thresholds and `top_k` as explicit parameters.
- Floating-point arithmetic is not modelled. In particular, `c / n >= min_support` and `conf >= min_confidence` are compared exactly, so a ratio that IEEE division would round across the threshold is decided exactly.
- MarketBasket.TopK: takes an integer `top_k`. `None` and other slice arguments are not modelled.
- The rest of the repository is not part of this model: the regression, ANOVA and A/B-test models, the data generator and the demo driver. They are floating-point statistics, randomness, file I/O and printing.
