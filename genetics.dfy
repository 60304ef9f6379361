/**
  Value-level model of the genetic operators over 128-entry rule tables:
  the three crossovers, the two bit-flip mutations, the elite choice made by
  a max-priority queue of (fitness, index) pairs, and fitness as the share
  of successful simulations.
*/
module Genetics {
  import opened Automaton

  // ---------------------------------------------------------------------
  // Crossover
  // ---------------------------------------------------------------------

  /**
    single_point_cross as its memcpy calls write it: the head [0, cut) of one
    parent, then the first 128 - cut genes of the other parent.
  */
  function SinglePointChildren(rule1: seq<int>, rule2: seq<int>, cut: int): (children: (seq<int>, seq<int>))
    requires |rule1| == RulesCount && |rule2| == RulesCount && 0 <= cut < RulesCount
    ensures |children.0| == RulesCount && |children.1| == RulesCount
    ensures forall i :: 0 <= i < cut ==> children.0[i] == rule1[i] && children.1[i] == rule2[i]
  {
    (rule1[..cut] + rule2[..RulesCount - cut], rule2[..cut] + rule1[..RulesCount - cut])
  }

  /** Gene by gene: below the cut each child keeps its own parent, from the cut on it reads the other parent shifted by `cut`. */
  lemma SinglePointAt(rule1: seq<int>, rule2: seq<int>, cut: int)
    requires |rule1| == RulesCount && |rule2| == RulesCount && 0 <= cut < RulesCount
    ensures var (res1, res2) := SinglePointChildren(rule1, rule2, cut);
      && |res1| == RulesCount && |res2| == RulesCount
      && (forall i :: 0 <= i < RulesCount ==> res1[i] == if i < cut then rule1[i] else rule2[i - cut])
      && (forall i :: 0 <= i < RulesCount ==> res2[i] == if i < cut then rule2[i] else rule1[i - cut])
  {
  }

  /** Children of rule tables are rule tables. */
  lemma SinglePointRuleTables(rule1: seq<int>, rule2: seq<int>, cut: int)
    requires IsRuleTable(rule1) && IsRuleTable(rule2) && 0 <= cut < RulesCount
    ensures IsRuleTable(SinglePointChildren(rule1, rule2, cut).0)
    ensures IsRuleTable(SinglePointChildren(rule1, rule2, cut).1)
  {
    SinglePointAt(rule1, rule2, cut);
  }

  /**
    Because the tail is read from the start of the other parent, a child
    gene at or after the cut need not be either parent's gene at that position.
  */
  lemma SinglePointTailIsShifted()
    ensures var zeros := seq(RulesCount, _ => 0);
            var lead := [1] + seq(RulesCount - 1, _ => 0);
            var (res1, _) := SinglePointChildren(zeros, lead, 1);
            res1[1] == 1 && zeros[1] == 0 && lead[1] == 0
  {
    var zeros := seq(RulesCount, _ => 0);
    var lead := [1] + seq(RulesCount - 1, _ => 0);
    SinglePointAt(zeros, lead, 1);
  }

  /** The two cut points in ascending order, as the swap in two_point_cross leaves them. */
  function OrderedCuts(cut1: int, cut2: int): (cuts: (int, int))
    ensures cuts.0 <= cuts.1
    ensures (cuts.0 == cut1 && cuts.1 == cut2) || (cuts.0 == cut2 && cuts.1 == cut1)
  {
    if cut2 < cut1 then (cut2, cut1) else (cut1, cut2)
  }

  /** two_point_cross with ordered cuts lo <= hi, as its memcpy calls write it. */
  function TwoPointChildren(rule1: seq<int>, rule2: seq<int>, lo: int, hi: int): (children: (seq<int>, seq<int>))
    requires |rule1| == RulesCount && |rule2| == RulesCount && 0 <= lo <= hi <= RulesCount
    ensures |children.0| == RulesCount && |children.1| == RulesCount
    ensures forall i :: 0 <= i < RulesCount && !(lo <= i < hi) ==> children.0[i] == rule1[i] && children.1[i] == rule2[i]
  {
    (rule1[..lo] + rule2[lo..hi] + rule1[hi..], rule2[..lo] + rule1[lo..hi] + rule2[hi..])
  }

  /** Gene by gene: inside [lo, hi) the parents are exchanged, outside they are kept. */
  lemma TwoPointAt(rule1: seq<int>, rule2: seq<int>, lo: int, hi: int)
    requires |rule1| == RulesCount && |rule2| == RulesCount && 0 <= lo <= hi <= RulesCount
    ensures var (res1, res2) := TwoPointChildren(rule1, rule2, lo, hi);
      && |res1| == RulesCount && |res2| == RulesCount
      && (forall i :: 0 <= i < RulesCount ==> res1[i] == if lo <= i < hi then rule2[i] else rule1[i])
      && (forall i :: 0 <= i < RulesCount ==> res2[i] == if lo <= i < hi then rule1[i] else rule2[i])
  {
  }

  /** At every position the two children hold the two parents' genes between them. */
  lemma TwoPointComplementary(rule1: seq<int>, rule2: seq<int>, lo: int, hi: int)
    requires |rule1| == RulesCount && |rule2| == RulesCount && 0 <= lo <= hi <= RulesCount
    ensures var (res1, res2) := TwoPointChildren(rule1, rule2, lo, hi);
      forall i :: 0 <= i < RulesCount ==> multiset{res1[i], res2[i]} == multiset{rule1[i], rule2[i]}
  {
    TwoPointAt(rule1, rule2, lo, hi);
  }

  /** Equal cut points give back the parents. */
  lemma TwoPointEqualCuts(rule1: seq<int>, rule2: seq<int>, cut: int)
    requires |rule1| == RulesCount && |rule2| == RulesCount && 0 <= cut <= RulesCount
    ensures TwoPointChildren(rule1, rule2, cut, cut) == (rule1, rule2)
  {
    assert rule1[..cut] + rule2[cut..cut] + rule1[cut..] == rule1;
    assert rule2[..cut] + rule1[cut..cut] + rule2[cut..] == rule2;
  }

  /** Crossing a table with itself gives two copies of it. */
  lemma TwoPointSameParent(rule: seq<int>, lo: int, hi: int)
    requires |rule| == RulesCount && 0 <= lo <= hi <= RulesCount
    ensures TwoPointChildren(rule, rule, lo, hi) == (rule, rule)
  {
    assert rule[..lo] + rule[lo..hi] + rule[hi..] == rule;
  }

  /** Children of rule tables are rule tables. */
  lemma TwoPointRuleTables(rule1: seq<int>, rule2: seq<int>, lo: int, hi: int)
    requires IsRuleTable(rule1) && IsRuleTable(rule2) && 0 <= lo <= hi <= RulesCount
    ensures IsRuleTable(TwoPointChildren(rule1, rule2, lo, hi).0)
    ensures IsRuleTable(TwoPointChildren(rule1, rule2, lo, hi).1)
  {
    TwoPointAt(rule1, rule2, lo, hi);
  }

  /** uniform_cross: coin 0 keeps the parents at that position, any other coin exchanges them. */
  function UniformChildren(rule1: seq<int>, rule2: seq<int>, origins: seq<int>): (children: (seq<int>, seq<int>))
    requires |rule1| == RulesCount && |rule2| == RulesCount && |origins| == RulesCount
    ensures |children.0| == RulesCount && |children.1| == RulesCount
    ensures forall i :: 0 <= i < RulesCount ==>
              (children.0[i] == rule1[i] && children.1[i] == rule2[i]) || (children.0[i] == rule2[i] && children.1[i] == rule1[i])
  {
    (seq(RulesCount, i requires 0 <= i < RulesCount => if origins[i] == 0 then rule1[i] else rule2[i]),
     seq(RulesCount, i requires 0 <= i < RulesCount => if origins[i] == 0 then rule2[i] else rule1[i]))
  }

  /** At every position the two children hold the two parents' genes between them, and the children are tables. */
  lemma UniformComplementary(rule1: seq<int>, rule2: seq<int>, origins: seq<int>)
    requires |rule1| == RulesCount && |rule2| == RulesCount && |origins| == RulesCount
    ensures var (res1, res2) := UniformChildren(rule1, rule2, origins);
      && (forall i :: 0 <= i < RulesCount ==> multiset{res1[i], res2[i]} == multiset{rule1[i], rule2[i]})
      && (IsRuleTable(rule1) && IsRuleTable(rule2) ==> IsRuleTable(res1) && IsRuleTable(res2))
  {
    var (res1, res2) := UniformChildren(rule1, rule2, origins);
    forall i | 0 <= i < RulesCount
      ensures multiset{res1[i], res2[i]} == multiset{rule1[i], rule2[i]}
    {
      if origins[i] == 0 {
        assert res1[i] == rule1[i] && res2[i] == rule2[i];
      } else {
        assert res1[i] == rule2[i] && res2[i] == rule1[i];
      }
    }
  }

  /** All-zero coins give back the parents; all-nonzero coins give them exchanged. */
  lemma UniformExtremeCoins(rule1: seq<int>, rule2: seq<int>, origins: seq<int>)
    requires |rule1| == RulesCount && |rule2| == RulesCount && |origins| == RulesCount
    ensures (forall i :: 0 <= i < RulesCount ==> origins[i] == 0) ==> UniformChildren(rule1, rule2, origins) == (rule1, rule2)
    ensures (forall i :: 0 <= i < RulesCount ==> origins[i] != 0) ==> UniformChildren(rule1, rule2, origins) == (rule2, rule1)
  {
    var (res1, res2) := UniformChildren(rule1, rule2, origins);
    if forall i :: 0 <= i < RulesCount ==> origins[i] == 0 {
      assert res1 == rule1 && res2 == rule2;
    }
    if forall i :: 0 <= i < RulesCount ==> origins[i] != 0 {
      assert res1 == rule2 && res2 == rule1;
    }
  }

  // ---------------------------------------------------------------------
  // Mutation
  // ---------------------------------------------------------------------

  /** mutate: gene i flips to 1 - gene exactly when its draw is below the rate. */
  function Mutated(rules: seq<int>, draws: seq<real>, rate: real): (mutated: seq<int>)
    requires |draws| == |rules|
    ensures |mutated| == |rules|
    ensures forall i :: 0 <= i < |rules| ==> mutated[i] == rules[i] || mutated[i] == 1 - rules[i]
  {
    seq(|rules|, i requires 0 <= i < |rules| => if draws[i] < rate then 1 - rules[i] else rules[i])
  }

  /** Mutating twice with the same draws restores the table; binary tables stay binary. */
  lemma MutatedProperties(rules: seq<int>, draws: seq<real>, rate: real)
    requires |draws| == |rules|
    ensures |Mutated(rules, draws, rate)| == |rules|
    ensures Mutated(Mutated(rules, draws, rate), draws, rate) == rules
    ensures IsBinary(rules) ==> IsBinary(Mutated(rules, draws, rate))
    ensures (forall i :: 0 <= i < |draws| ==> draws[i] >= rate) ==> Mutated(rules, draws, rate) == rules
    ensures forall i :: 0 <= i < |rules| ==> (Mutated(rules, draws, rate)[i] != rules[i] <==> draws[i] < rate)
  {
  }

  /** mutateTwoRandomRules: flip gene `first`, then flip gene `second`. */
  function FlipTwo(rules: seq<int>, first: int, second: int): (flipped: seq<int>)
    requires 0 <= first < |rules| && 0 <= second < |rules|
    ensures |flipped| == |rules|
    ensures forall i :: 0 <= i < |rules| && i != first && i != second ==> flipped[i] == rules[i]
  {
    var once := rules[first := 1 - rules[first]];
    once[second := 1 - once[second]]
  }

  /** Exactly the genes at first and second flip; the same position twice leaves the table as it was. */
  lemma FlipTwoAt(rules: seq<int>, first: int, second: int)
    requires 0 <= first < |rules| && 0 <= second < |rules|
    ensures |FlipTwo(rules, first, second)| == |rules|
    ensures forall i :: 0 <= i < |rules| ==>
              FlipTwo(rules, first, second)[i] == if (i == first) != (i == second) then 1 - rules[i] else rules[i]
    ensures first == second ==> FlipTwo(rules, first, second) == rules
    ensures IsBinary(rules) ==> IsBinary(FlipTwo(rules, first, second))
  {
  }

  /** The number of positions below n at which x and y differ. */
  function Differences(x: seq<int>, y: seq<int>, n: nat): (d: nat)
    requires n <= |x| == |y|
    ensures d <= n
  {
    if n == 0 then 0
    else Differences(x, y, n - 1) + (if x[n - 1] != y[n - 1] then 1 else 0)
  }

  /** The Hamming distance of two equally long sequences. */
  function Distance(x: seq<int>, y: seq<int>): (d: nat)
    requires |x| == |y|
    ensures d <= |x|
  {
    Differences(x, y, |x|)
  }

  lemma {:induction false} DifferencesSelf(x: seq<int>, n: nat)
    requires n <= |x|
    ensures Differences(x, x, n) == 0
  {
    if n > 0 {
      DifferencesSelf(x, n - 1);
    }
  }

  /** Changing one position of y changes the count by at most the change at that position. */
  lemma {:induction false} DifferencesUpdate(x: seq<int>, y: seq<int>, a: int, v: int, n: nat)
    requires n <= |x| == |y| && 0 <= a < |x|
    ensures Differences(x, y[a := v], n)
         == Differences(x, y, n) - (if a < n && x[a] != y[a] then 1 else 0) + (if a < n && x[a] != v then 1 else 0)
  {
    if n > 0 {
      DifferencesUpdate(x, y, a, v, n - 1);
    }
  }

  /** Two flips at distinct positions change exactly two genes; at the same position, none. */
  lemma FlipTwoDistance(rules: seq<int>, first: int, second: int)
    requires 0 <= first < |rules| && 0 <= second < |rules|
    ensures Distance(rules, FlipTwo(rules, first, second)) == if first == second then 0 else 2
  {
    var once := rules[first := 1 - rules[first]];
    DifferencesSelf(rules, |rules|);
    DifferencesUpdate(rules, rules, first, 1 - rules[first], |rules|);
    DifferencesUpdate(rules, once, second, 1 - once[second], |rules|);
  }

  // ---------------------------------------------------------------------
  // Elite selection and fitness
  // ---------------------------------------------------------------------

  /**
    The index on top of a max-priority queue of (fitness[i], i) pairs: the
    largest fitness, and among equal fitnesses the largest index.
  */
  function TopIndex(fitness: seq<real>): (k: nat)
    requires |fitness| > 0
    ensures k < |fitness|
  {
    if |fitness| == 1 then 0
    else
      var k := TopIndex(fitness[..|fitness| - 1]);
      if fitness[|fitness| - 1] >= fitness[k] then |fitness| - 1 else k
  }

  /** A pair maximal in the ordering of (fitness, index) pairs. */
  ghost predicate IsTopPair(fitness: seq<real>, k: int) {
    && 0 <= k < |fitness|
    && (forall j :: 0 <= j < |fitness| ==> fitness[j] <= fitness[k])
    && (forall j :: k < j < |fitness| ==> fitness[j] < fitness[k])
  }

  lemma {:induction false} TopIndexIsTop(fitness: seq<real>)
    requires |fitness| > 0
    ensures IsTopPair(fitness, TopIndex(fitness))
  {
    if |fitness| > 1 {
      var p := fitness[..|fitness| - 1];
      TopIndexIsTop(p);
      assert forall j :: 0 <= j < |p| ==> p[j] == fitness[j];
    }
  }

  /** The top pair is unique, so the queue's top is the same whatever order the pairs were pushed in. */
  lemma TopPairUnique(fitness: seq<real>, k: int)
    requires IsTopPair(fitness, k)
    ensures k == TopIndex(fitness)
  {
    TopIndexIsTop(fitness);
  }

  /** The number of the given runs that end in success. */
  function Successes(rules: seq<int>, starts: seq<seq<int>>, steps: int): (n: nat)
    requires IsRuleTable(rules)
    requires forall s :: 0 <= s < |starts| ==> IsBinary(starts[s])
    ensures n <= |starts|
  {
    if |starts| == 0 then 0
    else
      Successes(rules, starts[..|starts| - 1], steps)
      + (if Simulate(rules, starts[|starts| - 1], 0, steps).success == 1 then 1 else 0)
  }

  /** The share of successful runs. */
  function Fitness(rules: seq<int>, starts: seq<seq<int>>, steps: int): (f: real)
    requires IsRuleTable(rules)
    requires forall s :: 0 <= s < |starts| ==> IsBinary(starts[s])
    requires |starts| > 0
    ensures 0.0 <= f <= 1.0
  {
    Proportion(Successes(rules, starts, steps), |starts|);
    (Successes(rules, starts, steps) as real) / (|starts| as real)
  }

  /** n out of d, as a real, lies in [0, 1] and reaches its ends at n == d and n == 0. */
  lemma Proportion(n: nat, d: nat)
    requires 0 < d && n <= d
    ensures var f := n as real / d as real;
      && 0.0 <= f <= 1.0
      && (f == 1.0 <==> n == d)
      && (f == 0.0 <==> n == 0)
  {
    var f := n as real / d as real;
    assert f * (d as real) == n as real;
  }

  /** Fitness is a proportion, and it is 1 exactly when every run succeeds. */
  lemma FitnessInUnitInterval(rules: seq<int>, starts: seq<seq<int>>, steps: int)
    requires IsRuleTable(rules)
    requires forall s :: 0 <= s < |starts| ==> IsBinary(starts[s])
    requires |starts| > 0
    ensures 0.0 <= Fitness(rules, starts, steps) <= 1.0
    ensures Fitness(rules, starts, steps) == 1.0 <==> Successes(rules, starts, steps) == |starts|
    ensures Fitness(rules, starts, steps) == 0.0 <==> Successes(rules, starts, steps) == 0
  {
    hide Successes, Simulate;
    Proportion(Successes(rules, starts, steps), |starts|);
  }
}
