/** `generate_rules` (models/market_basket.py, lines 57-85): every split of a
    frequent itemset X, |X| >= 2, into a non-empty antecedent A and the
    consequent B = X - A, scored and filtered by confidence, then ranked by
    (lift, confidence), highest first. Metrics are kept at full precision. */
module Rules {

  import opened Sets
  import opened Items

  /** The frequent-itemset table handed to the rule generator. */
  type Table = map<set<string>, real>

  /** One emitted rule (lines 76-83): the sorted antecedent and consequent
      tuples and the four metrics. */
  datatype Rule = Rule(antecedent: seq<string>, consequent: seq<string>,
                       support: real, confidence: real, lift: real, leverage: real)

  /** `supp.get(s, 0.0)`. */
  function Get(table: Table, s: set<string>): real
  {
    if s in table then table[s] else 0.0
  }

  /** A -> B passes every test of lines 61-73: A + B is a key with at least
      two items, A and B are non-empty and disjoint, the antecedent's support
      is not 0, the confidence reaches the threshold (`>=`) and the
      consequent's support is positive. */
  predicate Qualifies(table: Table, minConfidence: real, a: set<string>, b: set<string>)
  {
    && a + b in table && |a + b| >= 2
    && a != {} && b != {} && a !! b
    && Get(table, a) != 0.0
    && table[a + b] / Get(table, a) >= minConfidence
    && Get(table, b) > 0.0
  }

  /** `r` is the rule for its own antecedent and consequent: both are sorted
      tuples, the pair qualifies, and the metrics are those of lines 72-75:
      support = supp(X), confidence = supp(X) / supp(A), lift = confidence /
      supp(B), leverage = supp(X) - supp(A) * supp(B), where X = A + B. */
  predicate IsRuleOf(table: Table, minConfidence: real, r: Rule)
  {
    var a, b := Elems(r.antecedent), Elems(r.consequent);
    && StrictlySorted(r.antecedent) && StrictlySorted(r.consequent)
    && Qualifies(table, minConfidence, a, b)
    && r.support == table[a + b]
    && r.confidence == table[a + b] / Get(table, a)
    && r.lift == r.confidence / Get(table, b)
    && r.leverage == table[a + b] - Get(table, a) * Get(table, b)
  }

  /** The body of the innermost loop (lines 66-83) for one antecedent `a` of
      the itemset `x`: a rule is found exactly when A -> X - A qualifies; an
      antecedent with support 0 is skipped, never divided by. */
  method RuleFor(table: Table, minConfidence: real, x: set<string>, a: set<string>)
    returns (found: bool, rule: Rule)
    requires x in table && a <= x && a != {} && a != x
    ensures found <==> Qualifies(table, minConfidence, a, x - a)
    ensures found ==> IsRuleOf(table, minConfidence, rule)
    ensures found ==> Elems(rule.antecedent) == a && Elems(rule.consequent) == x - a
  {
    var b := x - a;
    assert a + b == x;
    SubsetCard(a, x);
    assert b != {} by {
      assert x == a + b;
    }
    var sA := Get(table, a);
    var sB := Get(table, b);
    found := false;
    rule := Rule([], [], 0.0, 0.0, 0.0, 0.0);
    if sA == 0.0 {
      return;
    }
    var conf := table[x] / sA;
    if conf >= minConfidence && sB > 0.0 {
      var lift := conf / sB;
      var leverage := table[x] - sA * sB;
      var ant := SortedItems(a);
      var cons := SortedItems(b);
      rule := Rule(ant, cons, table[x], conf, lift, leverage);
      found := true;
    }
  }

  /** Every rule of `rs` is a rule of the table splitting `x`, with its
      antecedent among those in `seen`. */
  ghost predicate SplitsOf(table: Table, minConfidence: real, x: set<string>, seen: set<set<string>>, rs: seq<Rule>)
  {
    forall i :: 0 <= i < |rs| ==>
      && IsRuleOf(table, minConfidence, rs[i])
      && Elems(rs[i].antecedent) in seen
      && Elems(rs[i].consequent) == x - Elems(rs[i].antecedent)
  }

  /** Every antecedent of `seen` that qualifies against `x` has a rule in `rs`. */
  ghost predicate CoversSeen(table: Table, minConfidence: real, x: set<string>, seen: set<set<string>>, rs: seq<Rule>)
  {
    forall a :: a in seen && Qualifies(table, minConfidence, a, x - a) ==>
      exists i :: 0 <= i < |rs| && Elems(rs[i].antecedent) == a
  }

  /** No two rules of `rs` share an antecedent. */
  predicate DistinctAntecedents(rs: seq<Rule>)
  {
    forall i, j :: 0 <= i < j < |rs| ==> Elems(rs[i].antecedent) != Elems(rs[j].antecedent)
  }

  lemma SplitsOfStep(table: Table, minConfidence: real, x: set<string>, seen: set<set<string>>, rs: seq<Rule>,
                     a: set<string>, rule: Rule)
    requires SplitsOf(table, minConfidence, x, seen, rs)
    requires IsRuleOf(table, minConfidence, rule)
    requires Elems(rule.antecedent) == a && Elems(rule.consequent) == x - a
    ensures SplitsOf(table, minConfidence, x, seen + {a}, rs + [rule])
  {
    var rs' := rs + [rule];
    forall i | 0 <= i < |rs'|
      ensures IsRuleOf(table, minConfidence, rs'[i])
      ensures Elems(rs'[i].antecedent) in seen + {a}
      ensures Elems(rs'[i].consequent) == x - Elems(rs'[i].antecedent)
    {
      if i < |rs| {
        assert rs'[i] == rs[i];
      }
    }
  }

  lemma SplitsOfSkip(table: Table, minConfidence: real, x: set<string>, seen: set<set<string>>, rs: seq<Rule>,
                     a: set<string>)
    requires SplitsOf(table, minConfidence, x, seen, rs)
    ensures SplitsOf(table, minConfidence, x, seen + {a}, rs)
  {
  }

  lemma CoversSeenStep(table: Table, minConfidence: real, x: set<string>, seen: set<set<string>>, rs: seq<Rule>,
                       a: set<string>, found: bool, rule: Rule)
    requires CoversSeen(table, minConfidence, x, seen, rs)
    requires found <==> Qualifies(table, minConfidence, a, x - a)
    requires found ==> Elems(rule.antecedent) == a
    ensures CoversSeen(table, minConfidence, x, seen + {a}, if found then rs + [rule] else rs)
  {
    var rs' := if found then rs + [rule] else rs;
    forall b | b in seen + {a} && Qualifies(table, minConfidence, b, x - b)
      ensures exists i :: 0 <= i < |rs'| && Elems(rs'[i].antecedent) == b
    {
      if b == a {
        assert Elems(rs'[|rs|].antecedent) == b;
      } else {
        var i :| 0 <= i < |rs| && Elems(rs[i].antecedent) == b;
        assert rs'[i] == rs[i];
      }
    }
  }

  lemma DistinctAntecedentsStep(x: set<string>, seen: set<set<string>>, rs: seq<Rule>, rule: Rule)
    requires DistinctAntecedents(rs)
    requires forall i :: 0 <= i < |rs| ==> Elems(rs[i].antecedent) in seen
    requires Elems(rule.antecedent) !in seen
    ensures DistinctAntecedents(rs + [rule])
  {
    var rs' := rs + [rule];
    forall i, j | 0 <= i < j < |rs'| ensures Elems(rs'[i].antecedent) != Elems(rs'[j].antecedent) {
      assert rs'[i] == rs[i];
      if j < |rs| {
        assert rs'[j] == rs[j];
      }
    }
  }

  /** The rules `rs` emitted for the itemset `x` after the antecedents in
      `seen`. */
  ghost predicate EmittedFor(table: Table, minConfidence: real, x: set<string>, seen: set<set<string>>, rs: seq<Rule>)
  {
    && SplitsOf(table, minConfidence, x, seen, rs)
    && CoversSeen(table, minConfidence, x, seen, rs)
    && DistinctAntecedents(rs)
  }

  lemma EmittedForStep(table: Table, minConfidence: real, x: set<string>, seen: set<set<string>>, rs: seq<Rule>,
                       a: set<string>, found: bool, rule: Rule)
    requires EmittedFor(table, minConfidence, x, seen, rs) && a !in seen
    requires found <==> Qualifies(table, minConfidence, a, x - a)
    requires found ==> IsRuleOf(table, minConfidence, rule)
    requires found ==> Elems(rule.antecedent) == a && Elems(rule.consequent) == x - a
    ensures EmittedFor(table, minConfidence, x, seen + {a}, if found then rs + [rule] else rs)
  {
    CoversSeenStep(table, minConfidence, x, seen, rs, a, found, rule);
    if found {
      SplitsOfStep(table, minConfidence, x, seen, rs, a, rule);
      DistinctAntecedentsStep(x, seen, rs, rule);
    } else {
      SplitsOfSkip(table, minConfidence, x, seen, rs, a);
    }
  }

  /** What `generate_rules` emits for one itemset `x`: rules of the table
      whose antecedent and consequent split `x`, one for every qualifying
      antecedent, no antecedent twice. */
  ghost predicate RulesOfItemset(table: Table, minConfidence: real, x: set<string>, rs: seq<Rule>)
  {
    && (forall i :: 0 <= i < |rs| ==>
          IsRuleOf(table, minConfidence, rs[i]) && Elems(rs[i].antecedent) + Elems(rs[i].consequent) == x)
    && (forall a :: a <= x && Qualifies(table, minConfidence, a, x - a) ==>
          exists i :: 0 <= i < |rs| && Elems(rs[i].antecedent) == a && Elems(rs[i].consequent) == x - a)
    && (forall i, j :: 0 <= i < j < |rs| ==> Elems(rs[i].antecedent) != Elems(rs[j].antecedent))
  }

  /** Lines 63-83 for one itemset `x` with at least two items: every
      antecedent size r from 1 to |x| - 1, every combination of that size. */
  method RulesForItemset(table: Table, minConfidence: real, x: set<string>) returns (rs: seq<Rule>)
    requires x in table && |x| >= 2
    ensures RulesOfItemset(table, minConfidence, x, rs)
  {
    var items := SetToSeq(x);
    rs := [];
    ghost var seen: set<set<string>> := {};
    for r := 1 to |items|
      invariant forall a :: a in seen <==> a <= x && 1 <= |a| < r
      invariant EmittedFor(table, minConfidence, x, seen, rs)
    {
      var level := Combinations(items, r);
      CombinationsSpec(items, r);
      var rest := level;
      while rest != {}
        invariant rest <= level
        invariant forall a :: a in seen <==> (a <= x && 1 <= |a| < r) || (a in level && a !in rest)
        invariant EmittedFor(table, minConfidence, x, seen, rs)
      {
        var a :| a in rest;
        assert a != {} && a != x by {
          assert |a| == r;
        }
        var found, rule := RuleFor(table, minConfidence, x, a);
        EmittedForStep(table, minConfidence, x, seen, rs, a, found, rule);
        if found {
          rs := rs + [rule];
        }
        rest := rest - {a};
        seen := seen + {a};
      }
    }
    EmittedForAll(table, minConfidence, x, seen, rs);
  }

  /** Once every non-empty proper subset of `x` has been seen, the emitted
      rules are the rules of `x`. */
  lemma EmittedForAll(table: Table, minConfidence: real, x: set<string>, seen: set<set<string>>, rs: seq<Rule>)
    requires forall a :: a in seen <==> a <= x && 1 <= |a| < |x|
    requires EmittedFor(table, minConfidence, x, seen, rs)
    ensures RulesOfItemset(table, minConfidence, x, rs)
  {
    forall i | 0 <= i < |rs| ensures Elems(rs[i].antecedent) + Elems(rs[i].consequent) == x {
      assert Elems(rs[i].antecedent) <= x;
    }
    forall a | a <= x && Qualifies(table, minConfidence, a, x - a)
      ensures exists i :: 0 <= i < |rs| && Elems(rs[i].antecedent) == a && Elems(rs[i].consequent) == x - a
    {
      SubsetCard(a, x);
      assert a in seen;
      var i :| 0 <= i < |rs| && Elems(rs[i].antecedent) == a;
    }
  }

  /** Every rule of `rules` is a rule of the table whose itemset is in `done`. */
  ghost predicate RulesWithin(table: Table, minConfidence: real, done: set<set<string>>, rules: seq<Rule>)
  {
    forall i :: 0 <= i < |rules| ==>
      IsRuleOf(table, minConfidence, rules[i]) && Elems(rules[i].antecedent) + Elems(rules[i].consequent) in done
  }

  /** Every qualifying pair whose itemset is in `done` has a rule in `rules`. */
  ghost predicate CoversDone(table: Table, minConfidence: real, done: set<set<string>>, rules: seq<Rule>)
  {
    forall a, b :: Qualifies(table, minConfidence, a, b) && a + b in done ==>
      exists i :: 0 <= i < |rules| && Elems(rules[i].antecedent) == a && Elems(rules[i].consequent) == b
  }

  /** The rules emitted for the itemsets in `done`. */
  ghost predicate EmittedAll(table: Table, minConfidence: real, done: set<set<string>>, rules: seq<Rule>)
  {
    RulesWithin(table, minConfidence, done, rules) && CoversDone(table, minConfidence, done, rules) && Distinct(rules)
  }

  lemma RulesWithinStep(table: Table, minConfidence: real, done: set<set<string>>, rules: seq<Rule>,
                        x: set<string>, rs: seq<Rule>)
    requires RulesWithin(table, minConfidence, done, rules)
    requires |x| < 2 ==> rs == []
    requires |x| >= 2 ==> RulesOfItemset(table, minConfidence, x, rs)
    ensures RulesWithin(table, minConfidence, done + {x}, rules + rs)
  {
    var all := rules + rs;
    forall i | 0 <= i < |all|
      ensures IsRuleOf(table, minConfidence, all[i])
      ensures Elems(all[i].antecedent) + Elems(all[i].consequent) in done + {x}
    {
      if i < |rules| {
        assert all[i] == rules[i];
      } else {
        assert all[i] == rs[i - |rules|];
      }
    }
  }

  lemma CoversDoneStep(table: Table, minConfidence: real, done: set<set<string>>, rules: seq<Rule>,
                       x: set<string>, rs: seq<Rule>)
    requires CoversDone(table, minConfidence, done, rules)
    requires |x| < 2 ==> rs == []
    requires |x| >= 2 ==> RulesOfItemset(table, minConfidence, x, rs)
    ensures CoversDone(table, minConfidence, done + {x}, rules + rs)
  {
    forall a, b | Qualifies(table, minConfidence, a, b) && a + b in done + {x}
      ensures exists i :: 0 <= i < |rules + rs| &&
                Elems((rules + rs)[i].antecedent) == a && Elems((rules + rs)[i].consequent) == b
    {
      if a + b == x {
        CoveredByItemset(table, minConfidence, rules, x, rs, a, b);
      } else {
        var i :| 0 <= i < |rules| && Elems(rules[i].antecedent) == a && Elems(rules[i].consequent) == b;
        assert (rules + rs)[i] == rules[i];
      }
    }
  }

  /** A qualifying split of the itemset just visited has a rule among the
      rules emitted for it. */
  lemma CoveredByItemset(table: Table, minConfidence: real, rules: seq<Rule>, x: set<string>, rs: seq<Rule>,
                         a: set<string>, b: set<string>)
    requires Qualifies(table, minConfidence, a, b) && a + b == x
    requires |x| >= 2 ==> RulesOfItemset(table, minConfidence, x, rs)
    ensures exists i :: 0 <= i < |rules + rs| &&
              Elems((rules + rs)[i].antecedent) == a && Elems((rules + rs)[i].consequent) == b
  {
    assert a <= x && b == x - a;
    var i :| 0 <= i < |rs| && Elems(rs[i].antecedent) == a && Elems(rs[i].consequent) == x - a;
    assert (rules + rs)[|rules| + i] == rs[i];
  }

  lemma DistinctStep(table: Table, minConfidence: real, done: set<set<string>>, rules: seq<Rule>,
                     x: set<string>, rs: seq<Rule>)
    requires RulesWithin(table, minConfidence, done, rules) && Distinct(rules) && x !in done
    requires |x| < 2 ==> rs == []
    requires |x| >= 2 ==> RulesOfItemset(table, minConfidence, x, rs)
    ensures Distinct(rules + rs)
  {
    var all := rules + rs;
    forall i, j | 0 <= i < j < |all| ensures all[i] != all[j] {
      if j < |rules| {
        assert all[i] == rules[i] && all[j] == rules[j];
      } else if i < |rules| {
        assert all[i] == rules[i] && all[j] == rs[j - |rules|];
      } else {
        assert all[i] == rs[i - |rules|] && all[j] == rs[j - |rules|];
      }
    }
  }

  /** Visiting one more itemset of the table keeps `EmittedAll`. */
  lemma EmittedAllStep(table: Table, minConfidence: real, done: set<set<string>>, rules: seq<Rule>,
                       x: set<string>, rs: seq<Rule>)
    requires EmittedAll(table, minConfidence, done, rules) && x !in done
    requires |x| < 2 ==> rs == []
    requires |x| >= 2 ==> RulesOfItemset(table, minConfidence, x, rs)
    ensures EmittedAll(table, minConfidence, done + {x}, rules + rs)
  {
    RulesWithinStep(table, minConfidence, done, rules, x, rs);
    CoversDoneStep(table, minConfidence, done, rules, x, rs);
    DistinctStep(table, minConfidence, done, rules, x, rs);
  }

  /** The sort key of line 84, highest first: `r1` ranks at least as high as
      `r2` when its (lift, confidence) pair is lexicographically >=. */
  predicate RanksAbove(r1: Rule, r2: Rule)
  {
    r1.lift > r2.lift || (r1.lift == r2.lift && r1.confidence >= r2.confidence)
  }

  /** `r1` ranks strictly higher than `r2`: its (lift, confidence) pair is
      lexicographically >. */
  predicate RanksStrictlyAbove(r1: Rule, r2: Rule)
  {
    r1.lift > r2.lift || (r1.lift == r2.lift && r1.confidence > r2.confidence)
  }

  /** The keys are lexicographically non-increasing. */
  predicate SortedByRank(rules: seq<Rule>)
  {
    forall i, j :: 0 <= i < j < |rules| ==> RanksAbove(rules[i], rules[j])
  }

  /** Inserting one rule into a ranked list before the first rule it ranks
      strictly higher than, so behind every rule with an equal key. */
  function InsertByRank(r: Rule, rules: seq<Rule>): (out: seq<Rule>)
    requires SortedByRank(rules)
    ensures SortedByRank(out) && multiset(out) == multiset(rules) + multiset{r}
    ensures forall j :: 0 <= j < |out| ==> out[j] == r || out[j] in rules
  {
    if rules == [] then [r]
    else if RanksStrictlyAbove(r, rules[0]) then [r] + rules
    else
      var tail := InsertByRank(r, rules[1..]);
      InsertBehind(r, rules, tail);
      [rules[0]] + tail
  }

  /** A rule that does not rank strictly higher than the head of a ranked
      list may go anywhere behind it. */
  lemma InsertBehind(r: Rule, rules: seq<Rule>, tail: seq<Rule>)
    requires SortedByRank(rules) && rules != [] && !RanksStrictlyAbove(r, rules[0])
    requires SortedByRank(tail) && multiset(tail) == multiset(rules[1..]) + multiset{r}
    requires forall j :: 0 <= j < |tail| ==> tail[j] == r || tail[j] in rules[1..]
    ensures SortedByRank([rules[0]] + tail)
    ensures multiset([rules[0]] + tail) == multiset(rules) + multiset{r}
    ensures forall j :: 0 <= j < |tail| ==> tail[j] == r || tail[j] in rules
  {
    assert rules == [rules[0]] + rules[1..];
    var out := [rules[0]] + tail;
    forall j | 0 < j < |out| ensures RanksAbove(out[0], out[j]) {
      assert out[j] == tail[j - 1];
      if out[j] != r {
        var k :| 0 <= k < |rules[1..]| && rules[1..][k] == out[j];
        assert rules[k + 1] == out[j];
      }
    }
  }

  /** Where the rule lands: after every rule that ranks at least as high as
      it, and before every rule it ranks strictly higher than. Rules with
      equal keys therefore keep the order in which they were inserted, as
      Python's stable sort keeps them. */
  lemma {:induction false} InsertAfterEqual(r: Rule, rules: seq<Rule>) returns (p: nat)
    requires SortedByRank(rules)
    ensures p <= |rules| && InsertByRank(r, rules) == rules[..p] + [r] + rules[p..]
    ensures forall k :: 0 <= k < p ==> RanksAbove(rules[k], r)
    ensures forall k :: p <= k < |rules| ==> RanksStrictlyAbove(r, rules[k])
  {
    if rules == [] {
      p := 0;
    } else if RanksStrictlyAbove(r, rules[0]) {
      p := 0;
      assert forall k :: 0 < k < |rules| ==> RanksAbove(rules[0], rules[k]);
    } else {
      var tail := rules[1..];
      var q := InsertAfterEqual(r, tail);
      p := q + 1;
      assert rules == [rules[0]] + tail;
      CutAfterHead(rules[0], tail, r, q);
      PlaceBehindHead(r, rules, q);
    }
  }

  /** Cutting a list behind its head and q more elements. */
  lemma CutAfterHead(x: Rule, tail: seq<Rule>, r: Rule, q: nat)
    requires q <= |tail|
    ensures ([x] + tail)[..q + 1] + [r] + ([x] + tail)[q + 1..] == [x] + (tail[..q] + [r] + tail[q..])
  {
    assert ([x] + tail)[..q + 1] == [x] + tail[..q];
    assert ([x] + tail)[q + 1..] == tail[q..];
  }

  /** The place found in the tail, shifted by one past a head that `r` does
      not outrank. */
  lemma PlaceBehindHead(r: Rule, rules: seq<Rule>, q: nat)
    requires rules != [] && !RanksStrictlyAbove(r, rules[0]) && q < |rules|
    requires forall k :: 0 <= k < q ==> RanksAbove(rules[1..][k], r)
    requires forall k :: q <= k < |rules| - 1 ==> RanksStrictlyAbove(r, rules[1..][k])
    ensures forall k :: 0 <= k < q + 1 ==> RanksAbove(rules[k], r)
    ensures forall k :: q + 1 <= k < |rules| ==> RanksStrictlyAbove(r, rules[k])
  {
    forall k | q + 1 <= k < |rules| ensures RanksStrictlyAbove(r, rules[k]) {
      assert rules[k] == rules[1..][k - 1];
    }
    forall k | 0 < k < q + 1 ensures RanksAbove(rules[k], r) {
      assert rules[k] == rules[1..][k - 1];
    }
  }

  /** `rules.sort(key=lambda d: (d["lift"], d["confidence"]), reverse=True)`:
      a permutation of the input whose keys are non-increasing. */
  method SortByRank(rules: seq<Rule>) returns (sorted: seq<Rule>)
    ensures SortedByRank(sorted)
    ensures multiset(sorted) == multiset(rules)
  {
    sorted := [];
    for i := 0 to |rules|
      invariant SortedByRank(sorted)
      invariant multiset(sorted) == multiset(rules[..i])
    {
      sorted := InsertByRank(rules[i], sorted);
      assert rules[..i + 1] == rules[..i] + [rules[i]];
    }
    assert rules[..|rules|] == rules;
  }

  /** Permuting a list keeps which rules it holds and keeps it repeat-free. */
  lemma PermutationKeeps(xs: seq<Rule>, ys: seq<Rule>)
    requires multiset(xs) == multiset(ys)
    ensures forall r :: r in xs <==> r in ys
    ensures Distinct(xs) ==> Distinct(ys)
  {
    forall r ensures r in xs <==> r in ys {
      assert r in xs <==> r in multiset(xs);
      assert r in ys <==> r in multiset(ys);
    }
    if Distinct(xs) {
      DistinctPermutation(xs, ys);
    }
  }

  /** What `generate_rules` returns for a table: every listed rule is a rule
      of the table; every qualifying antecedent/consequent pair has a listed
      rule; no rule is listed twice; and the list is ranked by (lift,
      confidence), highest first. */
  ghost predicate IsRankedRuleList(table: Table, minConfidence: real, rules: seq<Rule>)
  {
    && (forall i :: 0 <= i < |rules| ==> IsRuleOf(table, minConfidence, rules[i]))
    && (forall a, b :: Qualifies(table, minConfidence, a, b) ==>
          exists i :: 0 <= i < |rules| && Elems(rules[i].antecedent) == a && Elems(rules[i].consequent) == b)
    && Distinct(rules)
    && SortedByRank(rules)
  }

  /** `generate_rules` (lines 57-85). The ranked list is a permutation of the
      rules emitted itemset by itemset, in whatever order the table is
      iterated. */
  method GenerateRules(table: Table, minConfidence: real) returns (rules: seq<Rule>)
    ensures forall i :: 0 <= i < |rules| ==> IsRuleOf(table, minConfidence, rules[i])
    ensures forall a, b :: Qualifies(table, minConfidence, a, b) ==>
              exists i :: 0 <= i < |rules| && Elems(rules[i].antecedent) == a && Elems(rules[i].consequent) == b
    ensures Distinct(rules)
    ensures SortedByRank(rules)
  {
    var emitted: seq<Rule> := [];
    var rest := table.Keys;
    ghost var done: set<set<string>> := {};
    while rest != {}
      invariant rest + done == table.Keys && rest !! done
      invariant EmittedAll(table, minConfidence, done, emitted)
    {
      var x :| x in rest;
      var rs: seq<Rule> := [];
      if |x| >= 2 {
        rs := RulesForItemset(table, minConfidence, x);
      }
      EmittedAllStep(table, minConfidence, done, emitted, x, rs);
      emitted := emitted + rs;
      rest := rest - {x};
      done := done + {x};
    }
    rules := SortByRank(emitted);
    EmittedAllSorted(table, minConfidence, emitted, rules);
  }

  /** Sorting the rules emitted for the whole table keeps them sound,
      complete and repeat-free. */
  lemma EmittedAllSorted(table: Table, minConfidence: real, emitted: seq<Rule>, rules: seq<Rule>)
    requires EmittedAll(table, minConfidence, table.Keys, emitted)
    requires multiset(rules) == multiset(emitted)
    ensures forall i :: 0 <= i < |rules| ==> IsRuleOf(table, minConfidence, rules[i])
    ensures forall a, b :: Qualifies(table, minConfidence, a, b) ==>
              exists i :: 0 <= i < |rules| && Elems(rules[i].antecedent) == a && Elems(rules[i].consequent) == b
    ensures Distinct(rules)
  {
    PermutationKeeps(emitted, rules);
    forall i | 0 <= i < |rules| ensures IsRuleOf(table, minConfidence, rules[i]) {
      assert rules[i] in emitted;
    }
    forall a, b | Qualifies(table, minConfidence, a, b)
      ensures exists i :: 0 <= i < |rules| && Elems(rules[i].antecedent) == a && Elems(rules[i].consequent) == b
    {
      var j :| 0 <= j < |emitted| && Elems(emitted[j].antecedent) == a && Elems(emitted[j].consequent) == b;
      assert emitted[j] in rules;
    }
  }

  /** A rule of the table is fixed by its antecedent and consequent sets:
      the tuples are their sorted listings and the metrics follow. */
  lemma RuleDetermined(table: Table, minConfidence: real, r1: Rule, r2: Rule)
    requires IsRuleOf(table, minConfidence, r1) && IsRuleOf(table, minConfidence, r2)
    requires Elems(r1.antecedent) == Elems(r2.antecedent) && Elems(r1.consequent) == Elems(r2.consequent)
    ensures r1 == r2
  {
    SortedUnique(r1.antecedent, r2.antecedent);
    SortedUnique(r1.consequent, r2.consequent);
  }

  /** Every rule of a sound list is in a complete one. */
  lemma SoundInComplete(table: Table, minConfidence: real, xs: seq<Rule>, ys: seq<Rule>)
    requires forall i :: 0 <= i < |xs| ==> IsRuleOf(table, minConfidence, xs[i])
    requires forall i :: 0 <= i < |ys| ==> IsRuleOf(table, minConfidence, ys[i])
    requires forall a, b :: Qualifies(table, minConfidence, a, b) ==>
               exists i :: 0 <= i < |ys| && Elems(ys[i].antecedent) == a && Elems(ys[i].consequent) == b
    ensures forall r :: r in xs ==> r in ys
  {
    forall r | r in xs ensures r in ys {
      var a, b := Elems(r.antecedent), Elems(r.consequent);
      assert Qualifies(table, minConfidence, a, b);
      var k :| 0 <= k < |ys| && Elems(ys[k].antecedent) == a && Elems(ys[k].consequent) == b;
      RuleDetermined(table, minConfidence, r, ys[k]);
    }
  }

  /** Two repeat-free lists with the same elements are permutations of
      each other. */
  lemma SameElementsPermutation(xs: seq<Rule>, ys: seq<Rule>)
    requires Distinct(xs) && Distinct(ys)
    requires forall r :: r in xs <==> r in ys
    ensures multiset(xs) == multiset(ys)
  {
    DistinctMultiplicity(xs);
    DistinctMultiplicity(ys);
    forall r ensures multiset(xs)[r] == multiset(ys)[r] {
      assert r in xs <==> r in multiset(xs);
      assert r in ys <==> r in multiset(ys);
    }
  }

  /** The result of `generate_rules` is determined up to the order of rules
      with equal (lift, confidence) keys: any two ranked rule lists of the
      same table are permutations of each other. */
  lemma RankedRuleListsArePermutations(table: Table, minConfidence: real, xs: seq<Rule>, ys: seq<Rule>)
    requires IsRankedRuleList(table, minConfidence, xs)
    requires IsRankedRuleList(table, minConfidence, ys)
    ensures multiset(xs) == multiset(ys)
  {
    SoundInComplete(table, minConfidence, xs, ys);
    SoundInComplete(table, minConfidence, ys, xs);
    SameElementsPermutation(xs, ys);
  }
}
