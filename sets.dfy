/** Small facts about finite sets and sequences used by the miner and the rule
    generator: turning a set into a list, and sizes of subsets. */
module Sets {

  /** The set of elements of a sequence. */
  function Elems<T>(xs: seq<T>): set<T>
  {
    set x | x in xs
  }

  /** Only the empty sequence has no elements. */
  lemma ElemsEmpty<T>(xs: seq<T>)
    ensures Elems(xs) == {} <==> xs == []
  {
    if xs != [] {
      assert xs[0] in Elems(xs);
    }
  }

  /** No element occurs twice. */
  predicate Distinct<T(==)>(xs: seq<T>)
  {
    forall i, j :: 0 <= i < j < |xs| ==> xs[i] != xs[j]
  }

  /** `list(s)` for a set `s`: every element once, in an unspecified order. */
  method SetToSeq<T(==)>(s: set<T>) returns (xs: seq<T>)
    ensures Distinct(xs) && Elems(xs) == s && |xs| == |s|
  {
    xs := [];
    var rest := s;
    while rest != {}
      invariant Elems(xs) + rest == s && Elems(xs) !! rest
      invariant Distinct(xs)
      invariant |xs| + |rest| == |s|
    {
      var x :| x in rest;
      xs := xs + [x];
      rest := rest - {x};
    }
  }

  /** The size of a subset is at most the size of the set. */
  lemma SubsetCard<T>(a: set<T>, b: set<T>)
    requires a <= b
    ensures |a| <= |b|
    ensures |b - a| == |b| - |a|
  {
    assert b == a + (b - a);
  }

  /** A set of size one is the singleton of any of its elements. */
  lemma SingletonOf<T>(s: set<T>, x: T)
    requires |s| == 1 && x in s
    ensures s == {x}
  {
    var r := s - {x};
    assert s == r + {x};
  }

  /** A subset one element smaller than `u` is `u` with one element removed. */
  lemma DropOne<T>(u: set<T>, s: set<T>) returns (x: T)
    requires s <= u && |s| == |u| - 1
    ensures x in u && s == u - {x}
  {
    SubsetCard(s, u);
    x :| x in u - s;
    SingletonOf(u - s, x);
  }

  /** A sequence has no repeats exactly when no element occurs twice in its
      multiset; so being repeat-free survives any permutation. */
  lemma {:induction false} DistinctMultiplicity<T>(xs: seq<T>)
    ensures Distinct(xs) <==> forall x :: multiset(xs)[x] <= 1
  {
    if xs != [] {
      var init, last := xs[..|xs| - 1], xs[|xs| - 1];
      DistinctMultiplicity(init);
      assert xs == init + [last];
      assert multiset(xs) == multiset(init) + multiset{last};
      if Distinct(xs) {
        assert Distinct(init) by {
          forall i, j | 0 <= i < j < |init| ensures init[i] != init[j] {
            assert init[i] == xs[i] && init[j] == xs[j];
          }
        }
        assert last !in init by {
          forall k | 0 <= k < |init| ensures init[k] != last {
            assert init[k] == xs[k];
          }
        }
      }
      if forall x :: multiset(xs)[x] <= 1 {
        assert forall x :: multiset(init)[x] <= multiset(xs)[x];
        assert multiset(init)[last] == 0;
        forall i, j | 0 <= i < j < |xs| ensures xs[i] != xs[j] {
          if j < |xs| - 1 {
            assert xs[i] == init[i] && xs[j] == init[j];
          } else {
            assert xs[i] == init[i] && xs[i] in init;
          }
        }
      }
    }
  }

  lemma DistinctPermutation<T>(xs: seq<T>, ys: seq<T>)
    requires multiset(xs) == multiset(ys) && Distinct(xs)
    ensures Distinct(ys)
  {
    DistinctMultiplicity(xs);
    DistinctMultiplicity(ys);
  }

  /** `itertools.combinations(xs, r)`, each combination taken as a set. */
  function Combinations<T(==)>(xs: seq<T>, r: nat): set<set<T>>
  {
    if xs == [] then (if r == 0 then {{}} else {})
    else
      var without := Combinations(xs[1..], r);
      if r == 0 then without
      else without + set c | c in Combinations(xs[1..], r - 1) && xs[0] !in c :: c + {xs[0]}
  }

  /** The first element of `xs` splits the combinations of size r > 0: those
      that hold it are a combination of the rest with it added. */
  lemma CombinationsConsWith<T>(xs: seq<T>, r: nat, c: set<T>)
    requires xs != [] && r > 0 && xs[0] in c
    requires c in Combinations(xs[1..], r) <==> c <= Elems(xs[1..]) && |c| == r
    requires c - {xs[0]} in Combinations(xs[1..], r - 1) <==> c - {xs[0]} <= Elems(xs[1..]) && |c - {xs[0]}| == r - 1
    ensures c in Combinations(xs, r) <==> c <= Elems(xs) && |c| == r
  {
    var x0, tail := xs[0], xs[1..];
    assert Elems(xs) == Elems(tail) + {x0} by { assert xs == [x0] + tail; }
    var c' := c - {x0};
    assert c == c' + {x0};
    if c in Combinations(xs, r) {
      CombinationsWithOut(xs, r, c);
    }
    if c <= Elems(xs) && |c| == r {
      assert c' <= Elems(tail) && |c'| == r - 1;
      CombinationsWithIn(xs, r, c);
    }
  }

  /** A combination of size r holding the first element is one of size
      r - 1 of the rest with that element added, or one of the rest. */
  lemma CombinationsWithOut<T>(xs: seq<T>, r: nat, c: set<T>)
    requires xs != [] && r > 0 && xs[0] in c && c in Combinations(xs, r)
    ensures c - {xs[0]} in Combinations(xs[1..], r - 1) || c in Combinations(xs[1..], r)
  {
    var x0, tail := xs[0], xs[1..];
    var joined := set c' | c' in Combinations(tail, r - 1) && x0 !in c' :: c' + {x0};
    assert Combinations(xs, r) == Combinations(tail, r) + joined;
    if c in joined {
      var d :| d in Combinations(tail, r - 1) && x0 !in d && c == d + {x0};
      assert d == c - {x0};
    }
  }

  /** A combination of size r - 1 of the rest, with the first element added,
      is a combination of size r. */
  lemma CombinationsWithIn<T>(xs: seq<T>, r: nat, c: set<T>)
    requires xs != [] && r > 0 && xs[0] in c && c - {xs[0]} in Combinations(xs[1..], r - 1)
    ensures c in Combinations(xs, r)
  {
    var x0, tail := xs[0], xs[1..];
    var joined := set c' | c' in Combinations(tail, r - 1) && x0 !in c' :: c' + {x0};
    assert Combinations(xs, r) == Combinations(tail, r) + joined;
    assert c == (c - {x0}) + {x0};
    assert c in joined;
  }

  /** ... and those that do not hold it are combinations of the rest. */
  lemma CombinationsConsWithout<T>(xs: seq<T>, r: nat, c: set<T>)
    requires xs != [] && r > 0 && xs[0] !in c
    requires c in Combinations(xs[1..], r) <==> c <= Elems(xs[1..]) && |c| == r
    ensures c in Combinations(xs, r) <==> c <= Elems(xs) && |c| == r
  {
    var x0, tail := xs[0], xs[1..];
    assert Elems(xs) == Elems(tail) + {x0} by { assert xs == [x0] + tail; }
    var joined := set c' | c' in Combinations(tail, r - 1) && x0 !in c' :: c' + {x0};
    assert Combinations(xs, r) == Combinations(tail, r) + joined;
    assert c !in joined;
    assert c <= Elems(xs) <==> c <= Elems(tail);
  }

  /** The combinations of no elements, and those of size 0. */
  lemma CombinationsBase<T>(xs: seq<T>, r: nat, c: set<T>)
    requires xs == [] || r == 0
    requires xs != [] ==> (c in Combinations(xs[1..], r) <==> c <= Elems(xs[1..]) && |c| == r)
    ensures c in Combinations(xs, r) <==> c <= Elems(xs) && |c| == r
  {
    if xs == [] {
      if c <= Elems(xs) {
        assert c == {};
      }
    } else {
      assert Elems(xs) == Elems(xs[1..]) + {xs[0]} by { assert xs == [xs[0]] + xs[1..]; }
    }
  }

  /** The combinations of size r are exactly the r-element subsets of the
      elements. */
  lemma {:induction false} CombinationsMember<T>(xs: seq<T>, r: nat, c: set<T>)
    ensures c in Combinations(xs, r) <==> c <= Elems(xs) && |c| == r
  {
    if xs == [] {
      CombinationsBase(xs, r, c);
    } else {
      var tail := xs[1..];
      if r == 0 {
        CombinationsMember(tail, r, c);
        CombinationsBase(xs, r, c);
      } else if xs[0] in c {
        CombinationsMember(tail, r, c);
        CombinationsMember(tail, r - 1, c - {xs[0]});
        CombinationsConsWith(xs, r, c);
      } else {
        CombinationsMember(tail, r, c);
        CombinationsConsWithout(xs, r, c);
      }
    }
  }

  lemma CombinationsSpec<T>(xs: seq<T>, r: nat)
    ensures forall c :: c in Combinations(xs, r) <==> c <= Elems(xs) && |c| == r
  {
    forall c ensures c in Combinations(xs, r) <==> c <= Elems(xs) && |c| == r {
      CombinationsMember(xs, r, c);
    }
  }
}
