/** `run_market_basket` (models/market_basket.py, lines 88-92): parse the
    records into transactions, mine the frequent itemsets, generate and rank
    the rules, and keep the first `top_k` of them; together with what the
    pipeline guarantees about the rules of a frequent-itemset table. */
module MarketBasket {

  import opened Sets
  import opened Itemsets
  import opened Apriori
  import opened Items
  import opened Rules

  /** `rules[:top_k]` with Python's slice semantics: a non-negative `top_k`
      keeps the first `top_k` rules (all of them when there are fewer); a
      negative one drops the last `-top_k`. */
  function TopK(rules: seq<Rule>, topK: int): (top: seq<Rule>)
    ensures |top| <= |rules| && top == rules[..|top|]
    ensures topK >= 0 ==> |top| <= topK && (|top| < topK ==> top == rules)
    ensures topK < 0 && |rules| > -topK ==> |top| == |rules| - (-topK)
    ensures topK < 0 && |rules| <= -topK ==> top == []
  {
    var end :=
      if topK >= 0 then (if topK < |rules| then topK else |rules|)
      else (if |rules| + topK > 0 then |rules| + topK else 0);
    rules[..end]
  }

  /** The kept rules of a ranked list are ranked, and each ranks at least as
      high as every rule that was cut off. */
  lemma TopKBest(rules: seq<Rule>, topK: int)
    requires SortedByRank(rules)
    ensures SortedByRank(TopK(rules, topK))
    ensures forall i, j :: 0 <= i < |TopK(rules, topK)| <= j < |rules| ==> RanksAbove(TopK(rules, topK)[i], rules[j])
  {
    var top := TopK(rules, topK);
    forall i, j | 0 <= i < |top| <= j < |rules| ensures RanksAbove(top[i], rules[j]) {
      assert top[i] == rules[i];
    }
  }

  /** `run_market_basket`: the result is the `top_k` slice of a ranked rule
      list of the frequent-itemset table of the parsed transactions. */
  method RunMarketBasket(records: seq<map<string, string>>, minSupport: real, minConfidence: real, topK: int)
    returns (top: seq<Rule>)
    ensures exists freq: Table, rules: seq<Rule> ::
              && IsFrequentTable(Transactions(records), minSupport, freq)
              && IsRankedRuleList(freq, minConfidence, rules)
              && top == TopK(rules, topK)
  {
    var tx := ParseTransactions(records);
    var freq := Apriori.Apriori(tx, minSupport);
    var rules := GenerateRules(freq, minConfidence);
    top := TopK(rules, topK);
    assert IsFrequentTable(tx, minSupport, freq);
    assert IsRankedRuleList(freq, minConfidence, rules);
  }

  /** No transactions, no rules: the frequent table is empty, so nothing
      qualifies. */
  lemma NoTransactionsNoRules(txs: seq<set<string>>, minSupport: real, table: Table, minConfidence: real, rules: seq<Rule>)
    requires |txs| == 0
    requires IsFrequentTable(txs, minSupport, table)
    requires IsRankedRuleList(table, minConfidence, rules)
    ensures rules == []
  {
    NoTransactionsNothingFrequent(txs, minSupport, table);
    assert rules != [] ==> IsRuleOf(table, minConfidence, rules[0]);
  }

  /** A quotient of a positive count by a larger or equal positive count. */
  lemma QuotientBounds(x: real, y: real)
    requires 0.0 < x <= y
    ensures 0.0 < x / y <= 1.0
  {
    assert x / y * y == x;
  }

  /** Supports over the same transactions divide as their counts do. */
  lemma SupportRatio(cx: nat, ca: nat, n: nat)
    requires 0 < ca && 0 < n
    ensures (cx as real / n as real) / (ca as real / n as real) == cx as real / ca as real
  {
    var x, a, m := cx as real, ca as real, n as real;
    assert (x / m) / (a / m) == (x / m) * (m / a);
    assert (x / m) * (m / a) == x / a;
  }

  /** On a frequent-itemset table, both halves of every split of a frequent
      itemset are themselves keys with positive support at least that of the
      whole: the `sA == 0` skip and the `sB > 0` test of lines 70 and 73
      never decide anything, and the split qualifies exactly when its
      confidence reaches the threshold. */
  lemma SplitsOfFrequent(txs: seq<set<string>>, minSupport: real, table: Table, minConfidence: real,
                         x: set<string>, a: set<string>)
    requires IsFrequentTable(txs, minSupport, table)
    requires x in table && a != {} && a <= x && a != x
    ensures a in table && x - a in table
    ensures 0.0 < table[x] <= Get(table, a) && 0.0 < table[x] <= Get(table, x - a)
    ensures Qualifies(table, minConfidence, a, x - a) <==> table[x] / table[a] >= minConfidence
  {
    assert x - a != {} by {
      assert x == a + (x - a);
    }
    SubsetCard(a, x);
    DownwardClosed(txs, x, a, minSupport);
    DownwardClosed(txs, x, x - a, minSupport);
    FrequentBounds(txs, x, minSupport);
    FrequentBounds(txs, x - a, minSupport);
    assert a + (x - a) == x;
  }

  /** Every rule of a frequent-itemset table: its support is that of A + B and lies in [min_support, 1];
      its confidence is the fraction of the transactions containing A that
      also contain B and lies in [min_confidence, 1]; its lift is positive. */
  lemma RuleMetricBounds(txs: seq<set<string>>, minSupport: real, table: Table, minConfidence: real, r: Rule)
    requires IsFrequentTable(txs, minSupport, table)
    requires IsRuleOf(table, minConfidence, r)
    ensures var a, b := Elems(r.antecedent), Elems(r.consequent);
      && a != {} && b != {} && a !! b && a + b in table
      && r.support == Support(txs, a + b) && minSupport <= r.support <= 1.0
      && Count(txs, a) > 0
      && r.confidence == Count(txs, a + b) as real / Count(txs, a) as real
      && minConfidence <= r.confidence <= 1.0
      && r.lift > 0.0
  {
    var a, b := Elems(r.antecedent), Elems(r.consequent);
    var x := a + b;
    assert a <= x && a != x by {
      assert b <= x && b != {} && a !! b;
      var y :| y in b;
      assert y in x && y !in a;
    }
    assert x - a == b;
    SplitsOfFrequent(txs, minSupport, table, minConfidence, x, a);
    FrequentBounds(txs, x, minSupport);
    FrequentBounds(txs, a, minSupport);
    QuotientBounds(table[x], table[a]);
    SupportRatio(Count(txs, x), Count(txs, a), |txs|);
    assert r.lift == r.confidence / table[b];
    assert r.lift > 0.0 by {
      QuotientPositive(r.confidence, table[b]);
    }
  }

  /** A quotient of positive reals is positive. */
  lemma QuotientPositive(x: real, y: real)
    requires 0.0 < x && 0.0 < y
    ensures 0.0 < x / y
  {
    assert x / y * y == x;
  }
}
