/** Support of an itemset over a sequence of transactions, and the table of
    frequent itemsets that the level-wise search must produce. Everything the
    miner in module Apriori computes is proved against these definitions. */
module Itemsets {

  import opened Sets

  /** Number of transactions of `txs` of which `s` is a subset. */
  function Count<T>(txs: seq<set<T>>, s: set<T>): (c: nat)
    ensures c <= |txs|
  {
    if txs == [] then 0
    else Count(txs[..|txs| - 1], s) + (if s <= txs[|txs| - 1] then 1 else 0)
  }

  /** The fraction of the transactions that contain `s`; only defined when
      there is at least one transaction. */
  function Support<T>(txs: seq<set<T>>, s: set<T>): real
    requires |txs| > 0
  {
    Count(txs, s) as real / |txs| as real
  }

  /** `s` is a frequent itemset: a non-empty itemset contained in at least one
      transaction whose support reaches the threshold (the test is `>=`). */
  predicate IsFrequent<T>(txs: seq<set<T>>, s: set<T>, minSupport: real)
  {
    s != {} && Count(txs, s) > 0 && Support(txs, s) >= minSupport
  }

  /** `table` maps exactly the frequent itemsets to their supports. */
  ghost predicate IsFrequentTable<T(!new)>(txs: seq<set<T>>, minSupport: real, table: map<set<T>, real>)
  {
    && (forall s :: s in table <==> IsFrequent(txs, s, minSupport))
    && (forall s :: s in table ==> |txs| > 0 && table[s] == Support(txs, s))
  }

  /** Size of the largest transaction (0 when there is none). */
  function MaxSize<T>(txs: seq<set<T>>): (m: nat)
    ensures forall i :: 0 <= i < |txs| ==> |txs[i]| <= m
    ensures txs != [] ==> exists i :: 0 <= i < |txs| && |txs[i]| == m
  {
    if txs == [] then 0
    else
      var rest := MaxSize(txs[..|txs| - 1]);
      var last := |txs[|txs| - 1]|;
      if rest < last then last else rest
  }

  /** A count is positive exactly when some transaction contains the itemset. */
  lemma {:induction false} CountPositive<T>(txs: seq<set<T>>, s: set<T>)
    ensures Count(txs, s) > 0 <==> exists i :: 0 <= i < |txs| && s <= txs[i]
  {
    if txs != [] {
      var init := txs[..|txs| - 1];
      CountPositive(init, s);
      if Count(init, s) > 0 {
        var i :| 0 <= i < |init| && s <= init[i];
        assert txs[i] == init[i];
      }
      if !(s <= txs[|txs| - 1]) {
        forall i | 0 <= i < |txs| && s <= txs[i] ensures Count(init, s) > 0 {
          assert i < |init| && init[i] == txs[i];
        }
      }
    }
  }

  /** Counting over one more transaction. */
  lemma CountSnoc<T>(txs: seq<set<T>>, i: nat, s: set<T>)
    requires i < |txs|
    ensures Count(txs[..i + 1], s) == Count(txs[..i], s) + (if s <= txs[i] then 1 else 0)
  {
    assert txs[..i + 1][..i] == txs[..i];
  }

  /** A larger itemset is contained in at most as many transactions. */
  lemma {:induction false} CountAntitone<T>(txs: seq<set<T>>, a: set<T>, b: set<T>)
    requires a <= b
    ensures Count(txs, b) <= Count(txs, a)
  {
    if txs != [] {
      CountAntitone(txs[..|txs| - 1], a, b);
    }
  }

  /** Support is monotone in the count. */
  lemma SupportAntitone<T>(txs: seq<set<T>>, a: set<T>, b: set<T>)
    requires |txs| > 0 && a <= b
    ensures Support(txs, b) <= Support(txs, a)
  {
    CountAntitone(txs, a, b);
    DivideMonotone(Count(txs, b) as real, Count(txs, a) as real, |txs| as real);
  }

  /** Dividing by the same positive number keeps the order. */
  lemma DivideMonotone(x: real, y: real, n: real)
    requires x <= y && 0.0 < n
    ensures x / n <= y / n
  {
    assert y / n - x / n == (y - x) / n;
    assert (y - x) / n * n == y - x;
  }

  /** Every frequent itemset lies inside at least one transaction, so its size
      is bounded by the largest transaction and its support is positive. */
  lemma FrequentBounds<T>(txs: seq<set<T>>, s: set<T>, minSupport: real)
    requires IsFrequent(txs, s, minSupport)
    ensures exists i :: 0 <= i < |txs| && s <= txs[i]
    ensures 1 <= |s| <= MaxSize(txs)
    ensures 0.0 < Support(txs, s) <= 1.0 && minSupport <= Support(txs, s)
  {
    CountPositive(txs, s);
    var i :| 0 <= i < |txs| && s <= txs[i];
    assert |s| <= |txs[i]| by { SubsetCard(s, txs[i]); }
    FractionBounds(Count(txs, s), |txs|);
  }

  /** A positive count out of `n` is a fraction in (0, 1]. */
  lemma FractionBounds(c: nat, n: nat)
    requires 0 < c <= n
    ensures 0.0 < c as real / n as real <= 1.0
  {
    var cr, nr := c as real, n as real;
    assert cr / nr * nr == cr;
  }

  /** Downward closure (Apriori property): every non-empty subset of a frequent
      itemset is frequent, with at least the same support. */
  lemma DownwardClosed<T>(txs: seq<set<T>>, s: set<T>, a: set<T>, minSupport: real)
    requires IsFrequent(txs, s, minSupport)
    requires a != {} && a <= s
    ensures IsFrequent(txs, a, minSupport)
    ensures Support(txs, s) <= Support(txs, a)
  {
    CountAntitone(txs, a, s);
    SupportAntitone(txs, a, s);
  }

  /** A frequent itemset has a frequent subset of every size from 1 to its own. */
  lemma {:induction false} FrequentSubsetOfSize<T>(txs: seq<set<T>>, s: set<T>, j: nat, minSupport: real)
    requires IsFrequent(txs, s, minSupport)
    requires 1 <= j <= |s|
    ensures exists a :: a <= s && |a| == j && IsFrequent(txs, a, minSupport)
    decreases |s| - j
  {
    if j < |s| {
      var x :| x in s;
      var smaller := s - {x};
      assert |smaller| == |s| - 1;
      DownwardClosed(txs, s, smaller, minSupport);
      FrequentSubsetOfSize(txs, smaller, j, minSupport);
      var a :| a <= smaller && |a| == j && IsFrequent(txs, a, minSupport);
      assert a <= s;
    } else {
      assert s <= s && |s| == j;
    }
  }

  /** With no transactions nothing is frequent, so the only frequent-itemset
      table is the empty one. */
  lemma NoTransactionsNothingFrequent<T(!new)>(txs: seq<set<T>>, minSupport: real, table: map<set<T>, real>)
    requires |txs| == 0
    requires IsFrequentTable(txs, minSupport, table)
    ensures table == map[]
  {
  }

  /** The frequent-itemset table is a function of the transactions and the
      threshold: two tables that both satisfy the definition are equal. */
  lemma FrequentTableUnique<T(!new)>(txs: seq<set<T>>, minSupport: real, t1: map<set<T>, real>, t2: map<set<T>, real>)
    requires IsFrequentTable(txs, minSupport, t1)
    requires IsFrequentTable(txs, minSupport, t2)
    ensures t1 == t2
  {
    assert t1.Keys == t2.Keys by {
      forall s ensures s in t1 <==> s in t2 {
        assert s in t1 <==> IsFrequent(txs, s, minSupport);
      }
    }
  }
}
