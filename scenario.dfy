/** The five-basket example: five baskets over the items A, B and C,
    minimum support 0.4 and minimum confidence 0.5. The frequent-itemset
    table is forced, and so are the two highest-ranked rules. */
module Scenario {

  import opened Sets
  import opened Itemsets
  import opened Items
  import opened Rules
  import opened MarketBasket

  const Baskets: seq<set<string>> := [{"A", "B"}, {"A", "B", "C"}, {"A"}, {"B", "C"}, {"A", "B"}]

  /** The table the miner must return on `Baskets` at minimum support 0.4:
      {A,C} (0.2) and {A,B,C} (0.2) fall below the threshold, {B,C} meets it
      exactly. */
  const Expected: Table := map[{"A"} := 0.8, {"B"} := 0.8, {"C"} := 0.4, {"A", "B"} := 0.6, {"B", "C"} := 0.4]

  /** Every transaction is drawn from A, B and C. */
  lemma BasketsWithinABC(i: nat)
    requires i < |Baskets|
    ensures Baskets[i] <= {"A", "B", "C"}
  {
  }

  /** The itemsets drawn from A, B and C. */
  lemma SubsetsOfABC(s: set<string>)
    requires s <= {"A", "B", "C"}
    ensures || s == {} || s == {"A"} || s == {"B"} || s == {"C"}
            || s == {"A", "B"} || s == {"A", "C"} || s == {"B", "C"} || s == {"A", "B", "C"}
  {
    var a := if "A" in s then {"A"} else {};
    var b := if "B" in s then {"B"} else {};
    var c := if "C" in s then {"C"} else {};
    assert s == a + b + c;
  }

  /** Counting over `Baskets`, one transaction at a time. */
  lemma CountBaskets(s: set<string>)
    ensures Count(Baskets, s) ==
      (if s <= {"A", "B"} then 1 else 0) + (if s <= {"A", "B", "C"} then 1 else 0) + (if s <= {"A"} then 1 else 0)
      + (if s <= {"B", "C"} then 1 else 0) + (if s <= {"A", "B"} then 1 else 0)
  {
    assert Baskets[..0] == [] && Baskets[..5] == Baskets;
    CountSnoc(Baskets, 0, s);
    CountSnoc(Baskets, 1, s);
    CountSnoc(Baskets, 2, s);
    CountSnoc(Baskets, 3, s);
    CountSnoc(Baskets, 4, s);
  }

  /** The transaction counts of the non-empty itemsets over A, B and C. */
  lemma BasketCounts()
    ensures Count(Baskets, {"A"}) == 4 && Count(Baskets, {"B"}) == 4 && Count(Baskets, {"C"}) == 2
    ensures Count(Baskets, {"A", "B"}) == 3 && Count(Baskets, {"A", "C"}) == 1 && Count(Baskets, {"B", "C"}) == 2
    ensures Count(Baskets, {"A", "B", "C"}) == 1
  {
    CountBaskets({"A"});
    CountBaskets({"B"});
    CountBaskets({"C"});
    CountBaskets({"A", "B"});
    CountBaskets({"A", "C"});
    CountBaskets({"B", "C"});
    CountBaskets({"A", "B", "C"});
  }

  /** Every key of `Expected` is frequent at 0.4, with the listed support. */
  lemma ExpectedFrequent(s: set<string>)
    requires s in Expected
    ensures IsFrequent(Baskets, s, 0.4) && Expected[s] == Support(Baskets, s)
  {
    BasketCounts();
  }

  /** Every itemset frequent at 0.4 is a key of `Expected`: it lies inside a
      basket, so it is drawn from A, B and C, and {A,C} and {A,B,C} occur
      only once. */
  lemma FrequentExpected(s: set<string>)
    requires IsFrequent(Baskets, s, 0.4)
    ensures s in Expected
  {
    FrequentBounds(Baskets, s, 0.4);
    var i :| 0 <= i < |Baskets| && s <= Baskets[i];
    BasketsWithinABC(i);
    SubsetsOfABC(s);
    assert s != {"A", "C"} && s != {"A", "B", "C"} by {
      BasketCounts();
    }
  }

  /** Any table satisfying the definition of the frequent-itemset table for
      `Baskets` at 0.4 is `Expected`. */
  lemma ScenarioTable(table: Table)
    requires IsFrequentTable(Baskets, 0.4, table)
    ensures table == Expected
  {
    forall s ensures s in table <==> s in Expected {
      if s in Expected {
        ExpectedFrequent(s);
      }
      if s in table {
        FrequentExpected(s);
      }
    }
    assert table.Keys == Expected.Keys;
    forall s | s in table ensures table[s] == Expected[s] {
      ExpectedFrequent(s);
    }
  }

  /** C -> B: confidence 0.4 / 0.4, lift 1.0 / 0.8, leverage 0.4 - 0.4 * 0.8. */
  const RuleCB := Rule(["C"], ["B"], 0.4, 1.0, 1.25, 0.08)

  /** B -> C: confidence 0.4 / 0.8 (exactly at the 0.5 threshold), lift
      0.5 / 0.4. */
  const RuleBC := Rule(["B"], ["C"], 0.4, 0.5, 1.25, 0.08)

  /** The two rules of {B,C}: whichever item is the antecedent, the rule is
      fixed. */
  lemma RuleShapeBC(r: Rule)
    requires IsRuleOf(Expected, 0.5, r)
    requires Elems(r.antecedent) + Elems(r.consequent) == {"B", "C"}
    ensures r == RuleCB || r == RuleBC
  {
    var a, b := Elems(r.antecedent), Elems(r.consequent);
    SubsetsOfABC(a);
    if a == {"B"} {
      assert b == {"C"};
      SortedUnique(r.antecedent, ["B"]);
      SortedUnique(r.consequent, ["C"]);
    } else {
      assert a == {"C"} && b == {"B"};
      SortedUnique(r.antecedent, ["C"]);
      SortedUnique(r.consequent, ["B"]);
    }
  }

  /** The two rules of {A,B} both have lift (0.6 / 0.8) / 0.8. */
  lemma RuleShapeAB(r: Rule)
    requires IsRuleOf(Expected, 0.5, r)
    requires Elems(r.antecedent) + Elems(r.consequent) == {"A", "B"}
    ensures r.lift == 0.9375
  {
    var a, b := Elems(r.antecedent), Elems(r.consequent);
    SubsetsOfABC(a);
    assert (a == {"A"} && b == {"B"}) || (a == {"B"} && b == {"A"});
  }

  /** The rules of `Expected` at confidence 0.5: the two splits of {A,B}
      (lift 0.75 / 0.8) and the two rules of {B,C}. */
  lemma ScenarioRuleShape(r: Rule)
    requires IsRuleOf(Expected, 0.5, r)
    ensures || (Elems(r.antecedent) + Elems(r.consequent) == {"A", "B"} && r.lift == 0.9375)
            || r == RuleCB || r == RuleBC
  {
    var x := Elems(r.antecedent) + Elems(r.consequent);
    assert x == {"A", "B"} || x == {"B", "C"} by {
      assert x in Expected.Keys;
    }
    if x == {"A", "B"} {
      RuleShapeAB(r);
    } else {
      RuleShapeBC(r);
    }
  }

  /** A ranked, repeat-free list of rules of lift 0.9375 or 1.25 that holds
      both C -> B and B -> C starts with them, in that order. */
  lemma RankedStart(rules: seq<Rule>, i: nat, j: nat)
    requires SortedByRank(rules) && Distinct(rules)
    requires forall k :: 0 <= k < |rules| ==> rules[k].lift == 0.9375 || rules[k] == RuleCB || rules[k] == RuleBC
    requires i < |rules| && j < |rules| && rules[i] == RuleCB && rules[j] == RuleBC
    ensures |rules| >= 2 && rules[..2] == [RuleCB, RuleBC] && TopK(rules, 2) == [RuleCB, RuleBC]
  {
    var first := rules[0];
    assert forall k :: 0 < k < |rules| ==> RanksAbove(first, rules[k]);
    assert first.lift == 0.9375 || first == RuleCB || first == RuleBC;
    assert i == 0;
    var second := rules[1];
    assert forall k :: 1 < k < |rules| ==> RanksAbove(second, rules[k]);
    assert second.lift == 0.9375 || second == RuleCB || second == RuleBC;
    assert j == 1;
  }

  /** Every rule of `Expected` at confidence 0.5 has lift 0.9375 or is one
      of the two rules of {B,C}. */
  lemma ScenarioLifts(rules: seq<Rule>)
    requires forall k :: 0 <= k < |rules| ==> IsRuleOf(Expected, 0.5, rules[k])
    ensures forall k :: 0 <= k < |rules| ==> rules[k].lift == 0.9375 || rules[k] == RuleCB || rules[k] == RuleBC
  {
    forall k | 0 <= k < |rules| ensures rules[k].lift == 0.9375 || rules[k] == RuleCB || rules[k] == RuleBC {
      ScenarioRuleShape(rules[k]);
    }
  }

  /** C -> B and B -> C pass every test of the rule generator. */
  lemma KeyRulesQualify()
    ensures Qualifies(Expected, 0.5, {"C"}, {"B"}) && Qualifies(Expected, 0.5, {"B"}, {"C"})
  {
    assert {"C"} + {"B"} == {"B", "C"} && {"B"} + {"C"} == {"B", "C"};
    assert Get(Expected, {"B"}) == 0.8 && Get(Expected, {"C"}) == 0.4 && Expected[{"B", "C"}] == 0.4;
  }

  /** C -> B and B -> C qualify, so a complete list of rules of `Expected`
      holds both. */
  lemma KeyRulesListed(rules: seq<Rule>) returns (i: nat, j: nat)
    requires forall k :: 0 <= k < |rules| ==> IsRuleOf(Expected, 0.5, rules[k])
    requires forall a, b :: Qualifies(Expected, 0.5, a, b) ==>
               exists k :: 0 <= k < |rules| && Elems(rules[k].antecedent) == a && Elems(rules[k].consequent) == b
    ensures i < |rules| && rules[i] == RuleCB
    ensures j < |rules| && rules[j] == RuleBC
  {
    KeyRulesQualify();
    i :| 0 <= i < |rules| && Elems(rules[i].antecedent) == {"C"} && Elems(rules[i].consequent) == {"B"};
    j :| 0 <= j < |rules| && Elems(rules[j].antecedent) == {"B"} && Elems(rules[j].consequent) == {"C"};
    ScenarioRuleShape(rules[i]);
    ScenarioRuleShape(rules[j]);
  }

  /** Asking for the top two rules of the scenario returns C -> B, then
      B -> C: the two rules with the highest lift, ordered by confidence. */
  lemma ScenarioTopTwo(rules: seq<Rule>)
    requires IsRankedRuleList(Expected, 0.5, rules)
    ensures TopK(rules, 2) == [RuleCB, RuleBC]
  {
    var i, j := KeyRulesListed(rules);
    ScenarioLifts(rules);
    RankedStart(rules, i, j);
  }

  /** The five-basket example end to end: whatever table the miner returns on
      `Baskets` at 0.4 and whatever ranked list the rule generator returns
      for it at 0.5, the top two rules are C -> B and B -> C. */
  lemma ScenarioPipeline(table: Table, rules: seq<Rule>)
    requires IsFrequentTable(Baskets, 0.4, table)
    requires IsRankedRuleList(table, 0.5, rules)
    ensures table == Expected
    ensures TopK(rules, 2) == [RuleCB, RuleBC]
  {
    ScenarioTable(table);
    ScenarioTopTwo(rules);
  }
}
