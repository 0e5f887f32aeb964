/** The level-wise frequent-itemset search of `apriori`
    (models/market_basket.py, lines 20-54), written as the imperative loops of
    the source and proved to return exactly the frequent-itemset table of
    module Itemsets: every key frequent, every frequent itemset a key, every
    value its support. */
module Apriori {

  import opened Sets
  import opened Itemsets

  /** Every (k-1)-subset of `u` is in `level` (the `all(...)` test over
      `combinations(union, k - 1)`). */
  ghost predicate AllSubsetsIn<T(!new)>(u: set<T>, j: nat, level: set<set<T>>)
  {
    forall s :: s <= u && |s| == j ==> s in level
  }

  /** The executable form of the same test: each one-element removal is in `level`. */
  predicate AllDropOneIn<T(!new)>(u: set<T>, level: set<set<T>>)
  {
    forall x :: x in u ==> u - {x} in level
  }

  /** `u` is the union of two different members of `level`. */
  ghost predicate IsJoinOf<T(!new)>(level: set<set<T>>, u: set<T>)
  {
    exists a, b :: a in level && b in level && a != b && a + b == u
  }

  /** For a k-set, the (k-1)-combinations are exactly the one-element removals,
      so the executable prune test is the source's test. */
  lemma DropOneIsAllSubsets<T(!new)>(u: set<T>, level: set<set<T>>)
    requires |u| >= 1
    ensures AllSubsetsIn(u, |u| - 1, level) <==> AllDropOneIn(u, level)
  {
    if AllDropOneIn(u, level) {
      forall s | s <= u && |s| == |u| - 1 ensures s in level {
        var x := DropOne(u, s);
      }
    }
  }

  /** The pairwise-union join loses nothing: a k-set (k >= 2) whose
      (k-1)-subsets are all in `level` is the union of two different members
      of `level`. */
  lemma JoinComplete<T(!new)>(level: set<set<T>>, u: set<T>)
    requires |u| >= 2
    requires AllSubsetsIn(u, |u| - 1, level)
    ensures IsJoinOf(level, u)
  {
    var x :| x in u;
    assert |u - {x}| == |u| - 1;
    var y :| y in u - {x};
    var a, b := u - {x}, u - {y};
    assert a in level && b in level;
    assert y in a && y !in b;
    assert a + b == u;
  }


  /** The value a `defaultdict(int)` reads for `s`: its count, or 0 when absent. */
  function CountOf<T(!new)>(counts: map<set<T>, nat>, s: set<T>): nat
  {
    if s in counts then counts[s] else 0
  }

  /** `tally` is `counts` after `item_counts[frozenset([item])] += 1` for
      every item of `seen`. */
  ghost predicate ItemsTallied<T(!new)>(counts: map<set<T>, nat>, seen: set<T>, tally: map<set<T>, nat>)
  {
    && (forall s :: s in tally <==> s in counts || (|s| == 1 && s <= seen))
    && (forall s :: s in tally ==> tally[s] == CountOf(counts, s) + (if |s| == 1 && s <= seen then 1 else 0))
  }

  lemma ItemsTalliedStep<T(!new)>(counts: map<set<T>, nat>, seen: set<T>, tally: map<set<T>, nat>, item: T)
    requires ItemsTallied(counts, seen, tally) && item !in seen
    ensures ItemsTallied(counts, seen + {item}, tally[{item} := CountOf(tally, {item}) + 1])
  {
    forall s | |s| == 1 && s != {item}
      ensures s <= seen + {item} <==> s <= seen
    {
      if item in s {
        SingletonOf(s, item);
      }
    }
  }

  /** The inner loop of level 1 (lines 24-25) for one transaction `t`:
      `item_counts[frozenset([item])] += 1` for each item of `t`. Exactly the
      singletons inside `t` gain one; nothing else changes. */
  method TallyItems<T(!new)>(counts: map<set<T>, nat>, t: set<T>) returns (counts': map<set<T>, nat>)
    ensures forall s :: s in counts' <==> s in counts || (|s| == 1 && s <= t)
    ensures forall s :: s in counts' ==> counts'[s] == CountOf(counts, s) + (if |s| == 1 && s <= t then 1 else 0)
  {
    counts' := counts;
    var rest := t;
    ghost var seen: set<T> := {};
    while rest != {}
      invariant seen + rest == t && seen !! rest
      invariant ItemsTallied(counts, seen, counts')
    {
      var item :| item in rest;
      ItemsTalliedStep(counts, seen, counts', item);
      counts' := counts'[{item} := CountOf(counts', {item}) + 1];
      rest := rest - {item};
      seen := seen + {item};
    }
    ItemsTalliedAll(counts, seen, t, counts');
  }

  /** When every item of `t` has been seen, the tally is complete. */
  lemma ItemsTalliedAll<T(!new)>(counts: map<set<T>, nat>, seen: set<T>, t: set<T>, tally: map<set<T>, nat>)
    requires seen == t && ItemsTallied(counts, seen, tally)
    ensures forall s :: s in tally <==> s in counts || (|s| == 1 && s <= t)
    ensures forall s :: s in tally ==> tally[s] == CountOf(counts, s) + (if |s| == 1 && s <= t then 1 else 0)
  {
  }

  /** Level 1 (lines 22-25): the keys are the singletons occurring in some
      transaction, each mapped to the number of transactions containing it. */
  method CountItems<T(!new)>(txs: seq<set<T>>) returns (itemCounts: map<set<T>, nat>)
    ensures forall s :: s in itemCounts <==> |s| == 1 && Count(txs, s) > 0
    ensures forall s :: s in itemCounts ==> itemCounts[s] == Count(txs, s)
  {
    itemCounts := map[];
    for i := 0 to |txs|
      invariant forall s :: s in itemCounts <==> |s| == 1 && Count(txs[..i], s) > 0
      invariant forall s :: s in itemCounts ==> itemCounts[s] == Count(txs[..i], s)
    {
      itemCounts := TallyItems(itemCounts, txs[i]);
      forall s ensures Count(txs[..i + 1], s) == Count(txs[..i], s) + (if s <= txs[i] then 1 else 0) {
        CountSnoc(txs, i, s);
      }
    }
    assert txs[..|txs|] == txs;
  }

  /** Pair (p, q), p < q, of `list` comes before row i, column j of the nested
      loops, and the union of its two itemsets is `u`. */
  ghost predicate JoinedBefore<T(!new)>(list: seq<set<T>>, i: nat, j: nat, u: set<T>)
  {
    exists p, q :: 0 <= p < q < |list| && (p < i || (p == i && q < j)) && list[p] + list[q] == u
  }

  lemma JoinedStep<T(!new)>(list: seq<set<T>>, i: nat, j: nat, u: set<T>)
    requires i < j < |list|
    ensures JoinedBefore(list, i, j + 1, u) <==> JoinedBefore(list, i, j, u) || list[i] + list[j] == u
  {
    if list[i] + list[j] == u {
      assert 0 <= i < j < |list| && list[i] + list[j] == u;
    }
  }

  lemma JoinedNextRow<T(!new)>(list: seq<set<T>>, i: nat, u: set<T>)
    requires i < |list|
    ensures JoinedBefore(list, i, |list|, u) <==> JoinedBefore(list, i + 1, i + 2, u)
  {
  }

  /** After all rows, the pairs seen are all pairs of different level members. */
  lemma JoinedAll<T(!new)>(list: seq<set<T>>, level: set<set<T>>, u: set<T>)
    requires Distinct(list) && Elems(list) == level
    ensures JoinedBefore(list, |list|, |list| + 1, u) <==> IsJoinOf(level, u)
  {
    if IsJoinOf(level, u) {
      JoinFound(list, level, u);
    }
    if JoinedBefore(list, |list|, |list| + 1, u) {
      var p, q :| 0 <= p < q < |list| && list[p] + list[q] == u;
      assert list[p] in Elems(list) && list[q] in Elems(list);
    }
  }

  /** Every union of two distinct itemsets of the level is met by the double
      loop, at the positions of its two parts in whichever order. */
  lemma JoinFound<T(!new)>(list: seq<set<T>>, level: set<set<T>>, u: set<T>)
    requires Elems(list) == level && IsJoinOf(level, u)
    ensures JoinedBefore(list, |list|, |list| + 1, u)
  {
    var a, b :| a in level && b in level && a != b && a + b == u;
    assert a in Elems(list) && b in Elems(list);
    var p :| 0 <= p < |list| && list[p] == a;
    var q :| 0 <= q < |list| && list[q] == b;
    if q < p {
      assert list[q] + list[p] == u;
    } else {
      assert list[p] + list[q] == u;
    }
  }

  /** `candidates` holds the unions kept by the loops of lines 34-41 up to
      row i, column j: those of size k passing the prune. */
  ghost predicate KeptBefore<T(!new)>(level: set<set<T>>, k: nat, list: seq<set<T>>, i: nat, j: nat,
                                      candidates: set<set<T>>)
  {
    forall u :: u in candidates <==> |u| == k && AllDropOneIn(u, level) && JoinedBefore(list, i, j, u)
  }

  lemma KeptStep<T(!new)>(level: set<set<T>>, k: nat, list: seq<set<T>>, i: nat, j: nat,
                          candidates: set<set<T>>)
    requires i < j < |list|
    requires KeptBefore(level, k, list, i, j, candidates)
    ensures var union := list[i] + list[j];
            KeptBefore(level, k, list, i, j + 1,
                       if |union| == k && AllDropOneIn(union, level) then candidates + {union} else candidates)
  {
    forall u ensures JoinedBefore(list, i, j + 1, u) <==> JoinedBefore(list, i, j, u) || list[i] + list[j] == u {
      JoinedStep(list, i, j, u);
    }
  }

  lemma KeptNextRow<T(!new)>(level: set<set<T>>, k: nat, list: seq<set<T>>, i: nat, candidates: set<set<T>>)
    requires i < |list|
    requires KeptBefore(level, k, list, i, |list|, candidates)
    ensures KeptBefore(level, k, list, i + 1, i + 2, candidates)
  {
    forall u ensures JoinedBefore(list, i, |list|, u) <==> JoinedBefore(list, i + 1, i + 2, u) {
      JoinedNextRow(list, i, u);
    }
  }

  lemma KeptAll<T(!new)>(level: set<set<T>>, k: nat, list: seq<set<T>>, candidates: set<set<T>>)
    requires k >= 1
    requires Distinct(list) && Elems(list) == level
    requires KeptBefore(level, k, list, |list|, |list| + 1, candidates)
    ensures forall u :: u in candidates <==> IsJoinOf(level, u) && |u| == k && AllSubsetsIn(u, k - 1, level)
  {
    forall u ensures u in candidates <==> IsJoinOf(level, u) && |u| == k && AllSubsetsIn(u, k - 1, level) {
      JoinedAll(list, level, u);
      if |u| == k {
        DropOneIsAllSubsets(u, level);
      }
    }
  }

  /** Candidate generation for level k (lines 32-41): the union of every pair
      of different (k-1)-sets of the level, kept when it has exactly k items
      and every (k-1)-subset is in the level (the downward-closure prune). */
  method JoinAndPrune<T(!new)>(level: set<set<T>>, k: nat) returns (candidates: set<set<T>>)
    requires k >= 1
    ensures forall u :: u in candidates <==> IsJoinOf(level, u) && |u| == k && AllSubsetsIn(u, k - 1, level)
  {
    var list := SetToSeq(level);
    candidates := {};
    for i := 0 to |list|
      invariant KeptBefore(level, k, list, i, i + 1, candidates)
    {
      for j := i + 1 to |list|
        invariant KeptBefore(level, k, list, i, j, candidates)
      {
        KeptStep(level, k, list, i, j, candidates);
        var a, b := list[i], list[j];
        var union := a + b;
        if |union| == k {
          if AllDropOneIn(union, level) {
            candidates := candidates + {union};
          }
        }
      }
      KeptNextRow(level, k, list, i, candidates);
    }
    KeptAll(level, k, list, candidates);
  }

  /** The inner loop of lines 45-47 for one transaction `t`: every candidate
      that is a subset of `t` gains one; nothing else changes. */
  method TallyCandidates<T(!new)>(counts: map<set<T>, nat>, candidates: set<set<T>>, t: set<T>)
    returns (counts': map<set<T>, nat>)
    ensures forall c :: c in counts' <==> c in counts || (c in candidates && c <= t)
    ensures forall c :: c in counts' ==> counts'[c] == CountOf(counts, c) + (if c in candidates && c <= t then 1 else 0)
  {
    counts' := counts;
    var rest := candidates;
    ghost var seen: set<set<T>> := {};
    while rest != {}
      invariant seen + rest == candidates && seen !! rest
      invariant forall c :: c in counts' <==> c in counts || (c in seen && c <= t)
      invariant forall c :: c in counts' ==> counts'[c] == CountOf(counts, c) + (if c in seen && c <= t then 1 else 0)
    {
      var c :| c in rest;
      if c <= t {
        counts' := counts'[c := CountOf(counts', c) + 1];
      }
      rest := rest - {c};
      seen := seen + {c};
    }
  }

  /** Support counting for the candidates of one level (lines 43-47): one scan
      of the transactions. Candidates never contained in a transaction get no
      key. */
  method CountCandidates<T(!new)>(txs: seq<set<T>>, candidates: set<set<T>>) returns (counts: map<set<T>, nat>)
    ensures forall c :: c in counts <==> c in candidates && Count(txs, c) > 0
    ensures forall c :: c in counts ==> counts[c] == Count(txs, c)
  {
    counts := map[];
    for i := 0 to |txs|
      invariant forall c :: c in counts <==> c in candidates && Count(txs[..i], c) > 0
      invariant forall c :: c in counts ==> counts[c] == Count(txs[..i], c)
    {
      counts := TallyCandidates(counts, candidates, txs[i]);
      forall c ensures Count(txs[..i + 1], c) == Count(txs[..i], c) + (if c <= txs[i] then 1 else 0) {
        CountSnoc(txs, i, c);
      }
    }
    assert txs[..|txs|] == txs;
  }

  /** The filter of lines 26 and 49: the counted itemsets whose fraction of
      the `n` transactions reaches the threshold, mapped to that fraction. A
      count is only divided when it exists, so `n == 0` divides nothing. */
  function KeepFrequent<T(!new)>(counts: map<set<T>, nat>, n: nat, minSupport: real): map<set<T>, real>
    requires n == 0 ==> counts == map[]
  {
    map s | s in counts && counts[s] as real / n as real >= minSupport :: counts[s] as real / n as real
  }

  /** Level 1 is exact (lines 22-26): the filtered singleton counts are the
      frequent 1-itemsets, each with its support. */
  lemma LevelOneExact<T(!new)>(txs: seq<set<T>>, minSupport: real, itemCounts: map<set<T>, nat>)
    requires forall s :: s in itemCounts <==> |s| == 1 && Count(txs, s) > 0
    requires forall s :: s in itemCounts ==> itemCounts[s] == Count(txs, s)
    ensures |txs| == 0 ==> itemCounts == map[]
    ensures forall s :: s in KeepFrequent(itemCounts, |txs|, minSupport) <==> IsFrequent(txs, s, minSupport) && |s| == 1
    ensures forall s :: s in KeepFrequent(itemCounts, |txs|, minSupport) ==>
                        |txs| > 0 && KeepFrequent(itemCounts, |txs|, minSupport)[s] == Support(txs, s)
  {
  }

  /** Level k >= 2 is exact (lines 32-49): when `level` holds exactly the
      frequent (k-1)-sets, joining, pruning, counting and filtering give
      exactly the frequent k-sets, each with its support. In particular the
      pairwise-union join loses no frequent k-set. */
  lemma LevelExact<T(!new)>(txs: seq<set<T>>, minSupport: real, level: set<set<T>>, k: nat,
                            candidates: set<set<T>>, counts: map<set<T>, nat>)
    requires k >= 2
    requires forall a :: a in level <==> IsFrequent(txs, a, minSupport) && |a| == k - 1
    requires forall u :: u in candidates <==> IsJoinOf(level, u) && |u| == k && AllSubsetsIn(u, k - 1, level)
    requires forall c :: c in counts <==> c in candidates && Count(txs, c) > 0
    requires forall c :: c in counts ==> counts[c] == Count(txs, c)
    ensures |txs| == 0 ==> counts == map[]
    ensures forall s :: s in KeepFrequent(counts, |txs|, minSupport) <==> IsFrequent(txs, s, minSupport) && |s| == k
    ensures forall s :: s in KeepFrequent(counts, |txs|, minSupport) ==>
                        |txs| > 0 && KeepFrequent(counts, |txs|, minSupport)[s] == Support(txs, s)
  {
    forall s | IsFrequent(txs, s, minSupport) && |s| == k ensures s in candidates {
      forall a | a <= s && |a| == k - 1 ensures a in level {
        DownwardClosed(txs, s, a, minSupport);
      }
      JoinComplete(level, s);
    }
  }

  /** `table` maps exactly the frequent itemsets of fewer than k items to
      their supports: the merged result after the levels below k. */
  ghost predicate FrequentBelow<T(!new)>(txs: seq<set<T>>, minSupport: real, table: map<set<T>, real>, k: nat)
  {
    && (forall s :: s in table <==> IsFrequent(txs, s, minSupport) && |s| < k)
    && (forall s :: s in table ==> |txs| > 0 && table[s] == Support(txs, s))
  }

  /** `all_freq.update(Lk)` with the exact level k moves the bound to k + 1. */
  lemma FrequentBelowStep<T(!new)>(txs: seq<set<T>>, minSupport: real, table: map<set<T>, real>,
                                   level: map<set<T>, real>, k: nat)
    requires FrequentBelow(txs, minSupport, table, k)
    requires forall s :: s in level <==> IsFrequent(txs, s, minSupport) && |s| == k
    requires forall s :: s in level ==> |txs| > 0 && level[s] == Support(txs, s)
    ensures FrequentBelow(txs, minSupport, table + level, k + 1)
  {
  }

  /** Once a level holds no frequent itemset, no larger itemset is frequent
      either, so the merged result is the whole frequent-itemset table. */
  lemma FrequentBelowAll<T(!new)>(txs: seq<set<T>>, minSupport: real, table: map<set<T>, real>, k: nat)
    requires k >= 2 && FrequentBelow(txs, minSupport, table, k)
    requires forall s :: !(IsFrequent(txs, s, minSupport) && |s| == k - 1)
    ensures forall s :: s in table <==> IsFrequent(txs, s, minSupport)
    ensures forall s :: s in table ==> |txs| > 0 && table[s] == Support(txs, s)
  {
    forall s | IsFrequent(txs, s, minSupport) ensures |s| < k {
      if |s| >= k {
        FrequentSubsetOfSize(txs, s, k - 1, minSupport);
      }
    }
  }

  /** `apriori` (lines 20-54): the table it returns maps exactly the frequent
      itemsets to their supports, whatever the iteration order of its sets and
      dicts. The loop runs at most (largest transaction size) times. */
  method Apriori<T(!new)>(txs: seq<set<T>>, minSupport: real) returns (allFreq: map<set<T>, real>)
    ensures forall s :: s in allFreq <==> IsFrequent(txs, s, minSupport)
    ensures forall s :: s in allFreq ==> |txs| > 0 && allFreq[s] == Support(txs, s)
  {
    var n := |txs|;
    var itemCounts := CountItems(txs);
    LevelOneExact(txs, minSupport, itemCounts);
    var level1 := KeepFrequent(itemCounts, n, minSupport);
    allFreq := level1;
    if level1.Keys != {} {
      var s :| s in level1;
      FrequentBounds(txs, s, minSupport);
    }

    var k := 2;
    var current := level1.Keys;
    while current != {}
      invariant k >= 2
      invariant forall s :: s in current <==> IsFrequent(txs, s, minSupport) && |s| == k - 1
      invariant FrequentBelow(txs, minSupport, allFreq, k)
      invariant current != {} ==> k - 1 <= MaxSize(txs)
      decreases MaxSize(txs) + 1 - k
    {
      var candidates := JoinAndPrune(current, k);
      var counts := CountCandidates(txs, candidates);
      LevelExact(txs, minSupport, current, k, candidates, counts);
      var levelK := KeepFrequent(counts, n, minSupport);
      if levelK.Keys != {} {
        var s :| s in levelK;
        FrequentBounds(txs, s, minSupport);
      }
      FrequentBelowStep(txs, minSupport, allFreq, levelK, k);
      allFreq := allFreq + levelK;
      current := levelK.Keys;
      k := k + 1;
    }
    FrequentBelowAll(txs, minSupport, allFreq, k);
  }
}
