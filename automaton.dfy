/**
  Value-level model of the one-dimensional, radius-3 cellular automaton
  that the leader simulator runs: configurations, the neighbourhood code,
  the synchronous update, the count of active cells and the outcome of a
  run that stops at the first fixed point or when the step budget is spent.
*/
module Automaton {

  /** A rule table has one entry per 7-bit neighbourhood code. */
  const RulesCount: int := 128

  /** Every cell (or gene) is 0 or 1. */
  predicate IsBinary(s: seq<int>) {
    forall i :: 0 <= i < |s| ==> s[i] == 0 || s[i] == 1
  }

  /** 128 binary entries, indexed by neighbourhood code. */
  predicate IsRuleTable(rules: seq<int>) {
    |rules| == RulesCount && IsBinary(rules)
  }

  function Pow2(k: nat): (p: nat)
    ensures p >= 1
  {
    if k == 0 then 1 else 2 * Pow2(k - 1)
  }

  /** Bit weight of the cell at offset d from the centre: -3 -> 64, ..., 0 -> 8, ..., +3 -> 1. */
  function Weight(d: int): nat
    requires -3 <= d <= 3
  {
    Pow2(3 - d)
  }

  /** The state of cell i; cells outside the configuration count as 0 (no wraparound). */
  function CellAt(c: seq<int>, i: int): int {
    if 0 <= i < |c| then c[i] else 0
  }

  /** The sum of Weight(d) * CellAt(c, index + d) over the offsets d from `from` to +3. */
  function WeightedSum(c: seq<int>, index: int, from: int): int
    requires -3 <= from <= 4
    decreases 4 - from
  {
    if from == 4 then 0
    else Weight(from) * CellAt(c, index + from) + WeightedSum(c, index, from + 1)
  }

  lemma {:induction false} WeightedSumRange(c: seq<int>, index: int, from: int)
    requires IsBinary(c)
    requires -3 <= from <= 4
    decreases 4 - from
    ensures 0 <= WeightedSum(c, index, from) < Pow2(4 - from)
  {
    if from < 4 {
      WeightedSumRange(c, index, from + 1);
      var term := Weight(from) * CellAt(c, index + from);
      assert 0 <= term <= Pow2(3 - from) by {
        if CellAt(c, index + from) == 0 { assert term == 0; } else { assert term == Pow2(3 - from); }
      }
      assert Pow2(4 - from) == 2 * Pow2(3 - from);
    }
  }

  /** The neighbourhood code of cell `index`: the weighted sum over offsets -3..+3. */
  function NeighbourCode(c: seq<int>, index: int): (code: int)
    requires IsBinary(c)
    ensures 0 <= code < RulesCount
  {
    WeightedSumRange(c, index, -3);
    assert Pow2(7) == 128;
    WeightedSum(c, index, -3)
  }

  /** The neighbourhood code written out term by term, with the source's bit weights. */
  lemma NeighbourCodeTerms(c: seq<int>, index: int)
    requires IsBinary(c)
    ensures NeighbourCode(c, index)
         == 64 * CellAt(c, index - 3) + 32 * CellAt(c, index - 2) + 16 * CellAt(c, index - 1)
          + 8 * CellAt(c, index) + 4 * CellAt(c, index + 1) + 2 * CellAt(c, index + 2)
          + CellAt(c, index + 3)
  {
    assert Weight(-3) == 64 && Weight(-2) == 32 && Weight(-1) == 16 && Weight(0) == 8;
    assert Weight(1) == 4 && Weight(2) == 2 && Weight(3) == 1;
  }

  /** The synchronous update: every cell becomes the rule for its neighbourhood code. */
  function Update(rules: seq<int>, c: seq<int>): (next: seq<int>)
    requires |rules| == RulesCount && IsBinary(c)
    ensures |next| == |c|
    ensures IsBinary(rules) ==> IsBinary(next)
  {
    seq(|c|, i requires 0 <= i < |c| => rules[NeighbourCode(c, i)])
  }

  /** A configuration the update leaves unchanged, compared cell by cell. */
  predicate IsFixedPoint(rules: seq<int>, c: seq<int>)
    requires |rules| == RulesCount && IsBinary(c)
  {
    forall i {:trigger Update(rules, c)[i]} :: 0 <= i < |c| ==> Update(rules, c)[i] == c[i]
  }

  lemma FixedPointIsEquality(rules: seq<int>, c: seq<int>)
    requires |rules| == RulesCount && IsBinary(c)
    ensures IsFixedPoint(rules, c) <==> Update(rules, c) == c
  {
    if IsFixedPoint(rules, c) {
      assert forall i :: 0 <= i < |c| ==> Update(rules, c)[i] == c[i];
    }
  }

  /** The configuration after k synchronous updates. */
  function Iterate(rules: seq<int>, c: seq<int>, k: nat): (r: seq<int>)
    requires IsRuleTable(rules) && IsBinary(c)
    ensures |r| == |c| && IsBinary(r)
  {
    if k == 0 then c else Update(rules, Iterate(rules, c, k - 1))
  }

  /** One more update on top of k updates. */
  lemma IterateStep(rules: seq<int>, c: seq<int>, k: nat)
    requires IsRuleTable(rules) && IsBinary(c)
    ensures Iterate(rules, c, 0) == c
    ensures Iterate(rules, c, k + 1) == Update(rules, Iterate(rules, c, k))
  {
  }

  lemma {:induction false} IterateShift(rules: seq<int>, c: seq<int>, k: nat)
    requires IsRuleTable(rules) && IsBinary(c)
    ensures Iterate(rules, c, k + 1) == Iterate(rules, Update(rules, c), k)
  {
    if k > 0 {
      IterateShift(rules, c, k - 1);
    }
  }

  /** The configuration after k updates is a fixed point. */
  predicate FixedAfter(rules: seq<int>, c: seq<int>, k: nat)
    requires IsRuleTable(rules) && IsBinary(c)
  {
    IsFixedPoint(rules, Iterate(rules, c, k))
  }

  /** The number of cells equal to 1. */
  function Ones(c: seq<int>): (n: nat)
    ensures n <= |c|
  {
    if |c| == 0 then 0 else Ones(c[..|c| - 1]) + (if c[|c| - 1] == 1 then 1 else 0)
  }

  /** Ones agrees with the size of the set of positions holding a 1. */
  lemma {:induction false} OnesIsCardinality(c: seq<int>)
    ensures Ones(c) == |set i | 0 <= i < |c| && c[i] == 1|
  {
    if |c| > 0 {
      var p := c[..|c| - 1];
      OnesIsCardinality(p);
      var sp := set i | 0 <= i < |p| && p[i] == 1;
      var sc := set i | 0 <= i < |c| && c[i] == 1;
      if c[|c| - 1] == 1 {
        assert sc == sp + {|c| - 1};
      } else {
        assert sc == sp;
      }
    }
  }

  /** The four integers run_simulation returns: success, step, ones, constant. */
  datatype Outcome = Outcome(success: int, step: int, ones: int, constant: int)

  /**
    The run from loop step `step` on configuration c: stop at the first update
    that changes nothing (reporting step - 1), or after the budget.
  */
  function Simulate(rules: seq<int>, c: seq<int>, step: int, steps: int): (r: Outcome)
    requires IsRuleTable(rules) && IsBinary(c)
    ensures r.success == 1 ==> r.ones == 1 && r.constant == 1
    ensures r.constant != 1 ==> r.success == 0 && r.constant == 0 && r.step == steps
    decreases steps - step
  {
    if step >= steps then Outcome(0, steps, Ones(c), 0)
    else
      var next := Update(rules, c);
      if IsFixedPoint(rules, c) then Outcome(if Ones(next) == 1 then 1 else 0, step - 1, Ones(next), 1)
      else Simulate(rules, next, step + 1, steps)
  }

  /** The result ranges and the implications between the four fields. */
  lemma {:induction false} SimulateBounds(rules: seq<int>, c: seq<int>, step: int, steps: int)
    requires IsRuleTable(rules) && IsBinary(c)
    decreases steps - step
    ensures var r := Simulate(rules, c, step, steps);
      && (r.success == 0 || r.success == 1)
      && (r.constant == 0 || r.constant == 1)
      && 0 <= r.ones <= |c|
      && (r.success == 1 ==> r.ones == 1 && r.constant == 1)
      && (r.constant == 1 && r.success == 0 ==> r.ones != 1)
      && (r.constant == 1 ==> step - 1 <= r.step <= steps - 2)
      && (r.constant == 0 ==> r.success == 0 && r.step == steps)
  {
    if step < steps {
      var next := Update(rules, c);
      if !IsFixedPoint(rules, c) {
        SimulateBounds(rules, next, step + 1, steps);
      }
    }
  }

  /** A run whose budget is spent reports it, with the count of ones of the configuration it holds. */
  lemma SimulateOutOfSteps(rules: seq<int>, c: seq<int>, step: int, steps: int)
    requires IsRuleTable(rules) && IsBinary(c)
    requires step >= steps
    ensures Simulate(rules, c, step, steps) == Outcome(0, steps, Ones(c), 0)
  {
  }

  /** A run standing on a fixed point stops there and reports the step before. */
  lemma SimulateAtFixedPoint(rules: seq<int>, c: seq<int>, step: int, steps: int)
    requires IsRuleTable(rules) && IsBinary(c)
    requires step < steps && IsFixedPoint(rules, c)
    ensures Simulate(rules, c, step, steps) == Outcome(if Ones(c) == 1 then 1 else 0, step - 1, Ones(c), 1)
  {
    FixedPointIsEquality(rules, c);
  }

  /** One update that changes the configuration moves the run one loop step on. */
  lemma SimulateStep(rules: seq<int>, c: seq<int>, step: int, steps: int)
    requires IsRuleTable(rules) && IsBinary(c)
    requires step < steps && !IsFixedPoint(rules, c)
    ensures Simulate(rules, c, step, steps) == Simulate(rules, Update(rules, c), step + 1, steps)
  {
  }

  /** What is said of the iterates of c after j + 1 updates holds of the iterates of Update(c) after j. */
  lemma ShiftFacts(rules: seq<int>, c: seq<int>, j: nat)
    requires IsRuleTable(rules) && IsBinary(c)
    ensures FixedAfter(rules, c, j + 1) == FixedAfter(rules, Update(rules, c), j)
    ensures Ones(Iterate(rules, c, j + 1)) == Ones(Iterate(rules, Update(rules, c), j))
  {
    IterateShift(rules, c, j);
  }

  /** No fixed point among the first n + 1 iterates of c means none among the first n of its update. */
  lemma NoFixedPointShift(rules: seq<int>, c: seq<int>, n: nat)
    requires IsRuleTable(rules) && IsBinary(c)
    requires forall j :: 0 <= j <= n ==> !FixedAfter(rules, c, j)
    ensures !IsFixedPoint(rules, c)
    ensures forall j :: 0 <= j < n ==> !FixedAfter(rules, Update(rules, c), j)
  {
    assert !FixedAfter(rules, c, 0);
    forall j | 0 <= j < n
      ensures !FixedAfter(rules, Update(rules, c), j)
    {
      ShiftFacts(rules, c, j);
      assert !FixedAfter(rules, c, j + 1);
    }
  }

  /** A run that meets its first fixed point after k updates reports step k - 1. */
  lemma {:induction false} SimulateReachesFixedPoint(rules: seq<int>, c: seq<int>, step: int, steps: int, k: nat)
    requires IsRuleTable(rules) && IsBinary(c)
    requires step + k < steps
    requires FixedAfter(rules, c, k)
    requires forall j :: 0 <= j < k ==> !FixedAfter(rules, c, j)
    ensures var x := Iterate(rules, c, k);
      Simulate(rules, c, step, steps) == Outcome(if Ones(x) == 1 then 1 else 0, step + k - 1, Ones(x), 1)
    decreases k
  {
    // The run and the iterates are related through the step lemmas alone.
    hide Simulate, Iterate, Update, IsFixedPoint, Ones;
    if k == 0 {
      IterateStep(rules, c, 0);
      SimulateAtFixedPoint(rules, c, step, steps);
    } else {
      NoFixedPointShift(rules, c, k - 1);
      SimulateStep(rules, c, step, steps);
      ShiftFacts(rules, c, k - 1);
      SimulateReachesFixedPoint(rules, Update(rules, c), step + 1, steps, k - 1);
    }
  }

  /** A run that meets no fixed point reports the budget and the final count of ones. */
  lemma {:induction false} SimulateWithoutFixedPoint(rules: seq<int>, c: seq<int>, step: int, steps: int)
    requires IsRuleTable(rules) && IsBinary(c)
    requires forall j :: 0 <= j < steps - step ==> !FixedAfter(rules, c, j)
    ensures Simulate(rules, c, step, steps)
         == Outcome(0, steps, Ones(Iterate(rules, c, if step < steps then steps - step else 0)), 0)
    decreases steps - step
  {
    // The run and the iterates are related through the step lemmas alone.
    hide Simulate, Iterate, Update, IsFixedPoint, FixedAfter, Ones;
    IterateStep(rules, c, 0);
    if step >= steps {
      SimulateOutOfSteps(rules, c, step, steps);
    } else {
      NoFixedPointShift(rules, c, steps - step - 1);
      SimulateStep(rules, c, step, steps);
      ShiftFacts(rules, c, steps - step - 1);
      SimulateWithoutFixedPoint(rules, Update(rules, c), step + 1, steps);
    }
  }

  lemma {:induction false} FirstFixedPointFrom(rules: seq<int>, c: seq<int>, steps: int, i: nat) returns (k: nat)
    requires IsRuleTable(rules) && IsBinary(c)
    requires forall j :: 0 <= j < i ==> !FixedAfter(rules, c, j)
    requires exists j :: i <= j < steps && FixedAfter(rules, c, j)
    ensures k < steps && FixedAfter(rules, c, k)
    ensures forall j :: 0 <= j < k ==> !FixedAfter(rules, c, j)
    decreases steps - i
  {
    hide FixedAfter;
    if FixedAfter(rules, c, i) {
      k := i;
    } else {
      k := FirstFixedPointFrom(rules, c, steps, i + 1);
    }
  }

  /**
    A whole run (from loop step 0) ends on a constant configuration exactly
    when one of the first `steps` configurations is a fixed point.
  */
  lemma RunStopsIffFixedPoint(rules: seq<int>, init: seq<int>, steps: int)
    requires IsRuleTable(rules) && IsBinary(init)
    ensures Simulate(rules, init, 0, steps).constant == 1
        <==> exists k :: 0 <= k < steps && FixedAfter(rules, init, k)
  {
    if exists k :: 0 <= k < steps && FixedAfter(rules, init, k) {
      var k := FirstFixedPointFrom(rules, init, steps, 0);
      SimulateReachesFixedPoint(rules, init, 0, steps, k);
    } else {
      SimulateWithoutFixedPoint(rules, init, 0, steps);
    }
  }

  /**
    When a whole run ends on a constant configuration, the reported step plus
    one is the number of updates that reached the first fixed point, and the
    reported count of ones is that configuration's.
  */
  lemma RunConstantStep(rules: seq<int>, init: seq<int>, steps: int)
    requires IsRuleTable(rules) && IsBinary(init)
    requires Simulate(rules, init, 0, steps).constant == 1
    ensures var r := Simulate(rules, init, 0, steps);
      && 0 <= r.step + 1 < steps
      && FixedAfter(rules, init, r.step + 1)
      && (forall j :: 0 <= j < r.step + 1 ==> !FixedAfter(rules, init, j))
      && r.ones == Ones(Iterate(rules, init, r.step + 1))
  {
    hide Simulate, Iterate, Update, IsFixedPoint, FixedAfter, Ones;
    RunStopsIffFixedPoint(rules, init, steps);
    var k := FirstFixedPointFrom(rules, init, steps, 0);
    SimulateReachesFixedPoint(rules, init, 0, steps, k);
  }
}
