/**
  The leader simulator: a class holding the cell count, a reference to a
  rule table it only reads, and the current configuration, which every
  step replaces by a freshly written buffer.
*/
module CaSimulator {
  import opened Automaton

  /** `count` distinct, freshly allocated buffers of `width` cells each. */
  method NewRows(count: nat, width: nat) returns (rows: array<array<int>>)
    ensures fresh(rows) && rows.Length == count
    ensures forall r :: 0 <= r < count ==> fresh(rows[r]) && rows[r].Length == width
    ensures forall r, q :: 0 <= r < q < count ==> rows[r] != rows[q]
  {
    var placeholder := new int[0];
    rows := new array<int>[count](_ => placeholder);
    var i := 0;
    while i < count
      invariant 0 <= i <= count
      invariant forall r :: 0 <= r < i ==> fresh(rows[r]) && rows[r].Length == width
      invariant forall r, q :: 0 <= r < q < i ==> rows[r] != rows[q]
    {
      rows[i] := new int[width];
      i := i + 1;
    }
  }

  /** Writes `config` into `row`, cell by cell. */
  method CopyConfig(row: array<int>, config: seq<int>)
    requires row.Length == |config|
    modifies row
    ensures row[..] == config
  {
    var i := 0;
    while i < row.Length
      invariant 0 <= i <= row.Length
      invariant forall j :: 0 <= j < i ==> row[j] == config[j]
    {
      row[i] := config[i];
      i := i + 1;
    }
  }

  class Simulator {
    const cellsCount: nat
    const rules: array<int>
    var currentConfig: array<int>

    /** The rule table is a 128-entry binary table (the simulator never writes it). */
    ghost predicate Valid()
      reads rules
    {
      IsRuleTable(rules[..])
    }

    constructor (cellsCount: nat, rules: array<int>)
      ensures this.cellsCount == cellsCount && this.rules == rules
      ensures IsRuleTable(rules[..]) ==> Valid()
    {
      this.cellsCount := cellsCount;
      this.rules := rules;
      currentConfig := new int[0];
    }

    /** Writes the new state of cell `index` of `next` from its neighbourhood in `current`. */
    method ApplyRule(current: array<int>, next: array<int>, index: int)
      requires Valid()
      requires current.Length == cellsCount && next.Length == cellsCount
      requires 0 <= index < cellsCount
      requires IsBinary(current[..])
      requires next != current && next != rules
      modifies next
      ensures next[index] == rules[NeighbourCode(current[..], index)]
      ensures forall j :: 0 <= j < next.Length && j != index ==> next[j] == old(next[j])
    {
      ghost var c := current[..];
      var cells: int := cellsCount;
      var neighState: int := 0;
      if index > 2 { neighState := neighState + current[index - 3] * 64; }
      assert neighState == 64 * CellAt(c, index - 3);
      if index > 1 { neighState := neighState + current[index - 2] * 32; }
      assert neighState == 64 * CellAt(c, index - 3) + 32 * CellAt(c, index - 2);
      if index > 0 { neighState := neighState + current[index - 1] * 16; }
      neighState := neighState + current[index] * 8;
      ghost var left := neighState;
      assert left == 64 * CellAt(c, index - 3) + 32 * CellAt(c, index - 2) + 16 * CellAt(c, index - 1) + 8 * CellAt(c, index);
      if index < cells - 3 { neighState := neighState + current[index + 3]; }
      assert neighState == left + CellAt(c, index + 3);
      if index < cells - 2 { neighState := neighState + current[index + 2] * 2; }
      assert neighState == left + CellAt(c, index + 3) + 2 * CellAt(c, index + 2);
      if index < cells - 1 { neighState := neighState + current[index + 1] * 4; }
      assert neighState == left + CellAt(c, index + 3) + 2 * CellAt(c, index + 2) + 4 * CellAt(c, index + 1);
      NeighbourCodeTerms(c, index);
      assert neighState == NeighbourCode(current[..], index);
      next[index] := rules[neighState];
    }

    /** Fills `next` with the synchronous update of `current`, one cell at a time. */
    method UpdateAll(current: array<int>, next: array<int>)
      requires Valid()
      requires current.Length == cellsCount && next.Length == cellsCount
      requires IsBinary(current[..])
      requires next != current && next != rules
      modifies next
      ensures next[..] == Update(rules[..], current[..])
    {
      var i := 0;
      while i < cellsCount
        invariant 0 <= i <= cellsCount
        invariant forall j :: 0 <= j < i ==> next[j] == rules[NeighbourCode(current[..], j)]
      {
        ApplyRule(current, next, i);
        i := i + 1;
      }
    }

    /** The number of cells equal to 1. */
    method CountOnes(config: array<int>) returns (count: int)
      requires config.Length == cellsCount
      ensures count == Ones(config[..])
      ensures 0 <= count <= cellsCount
    {
      count := 0;
      var i := 0;
      while i < cellsCount
        invariant 0 <= i <= cellsCount
        invariant count == Ones(config[..i])
      {
        assert config[..i + 1][..i] == config[..i];
        if config[i] == 1 { count := count + 1; }
        i := i + 1;
      }
      assert config[..cellsCount] == config[..];
    }

    /** Whether the two configurations agree on every cell. */
    method ConfigsIdentical(config1: array<int>, config2: array<int>) returns (identical: bool)
      requires config1.Length == cellsCount && config2.Length == cellsCount
      ensures identical <==> forall i :: 0 <= i < cellsCount ==> config1[i] == config2[i]
    {
      var i := 0;
      while i < cellsCount
        invariant 0 <= i <= cellsCount
        invariant forall j :: 0 <= j < i ==> config1[j] == config2[j]
      {
        if config1[i] != config2[i] { return false; }
        i := i + 1;
      }
      return true;
    }

    /**
      Runs at most `steps` synchronous updates from `init` (the source draws
      it at random) and returns <success, step, ones, constant>.
    */
    method RunSimulation(init: seq<int>, steps: int) returns (res: Outcome)
      requires Valid()
      requires |init| == cellsCount && IsBinary(init)
      modifies this
      ensures res == Simulate(rules[..], init, 0, steps)
    {
      currentConfig := new int[cellsCount](i requires 0 <= i < cellsCount => init[i]);
      assert currentConfig[..] == init;
      var step := 0;
      while step < steps
        invariant 0 <= step
        invariant currentConfig.Length == cellsCount && currentConfig != rules
        invariant IsBinary(currentConfig[..])
        invariant Simulate(rules[..], currentConfig[..], step, steps) == Simulate(rules[..], init, 0, steps)
        decreases steps - step
      {
        var next := new int[cellsCount];
        UpdateAll(currentConfig, next);
        var identical := ConfigsIdentical(currentConfig, next);
        assert identical <==> IsFixedPoint(rules[..], currentConfig[..]);
        if identical {
          var ones := CountOnes(next);
          if ones == 1 {
            return Outcome(1, step - 1, ones, 1);
          } else {
            return Outcome(0, step - 1, ones, 1);
          }
        }
        currentConfig := next;
        step := step + 1;
      }
      var ones := CountOnes(currentConfig);
      res := Outcome(0, steps, ones, 0);
    }

    /**
      Fills `steps` rows: row 0 is `init` (the source draws it at random) and
      every later row is the synchronous update of the row before.
    */
    method RunSimulationRetTransitions(init: seq<int>, steps: int) returns (configurations: array<array<int>>)
      requires Valid()
      requires |init| == cellsCount && IsBinary(init)
      requires steps >= 1
      ensures fresh(configurations) && configurations.Length == steps
      ensures forall r :: 0 <= r < steps ==> fresh(configurations[r]) && configurations[r].Length == cellsCount
      ensures forall r, q :: 0 <= r < q < steps ==> configurations[r] != configurations[q]
      ensures configurations[0][..] == init
      ensures forall r :: 0 <= r < steps - 1 ==>
                IsBinary(configurations[r][..]) &&
                configurations[r + 1][..] == Update(rules[..], configurations[r][..])
      ensures forall r :: 0 <= r < steps ==> configurations[r][..] == Iterate(rules[..], init, r)
    {
      // Each row is related to the previous one through IterateStep alone.
      hide Iterate, Update;
      configurations := NewRows(steps, cellsCount);
      CopyConfig(configurations[0], init);

      // The rows the loop below is to produce.
      ghost var table := rules[..];
      ghost var trace := seq(steps, r requires 0 <= r < steps => Iterate(table, init, r));
      IterateStep(table, init, 0);
      var step := 0;
      while step < steps - 1
        invariant 0 <= step <= steps - 1
        invariant forall r :: 0 <= r <= step ==> configurations[r][..] == trace[r]
        invariant forall r :: 0 <= r < steps ==> fresh(configurations[r]) && configurations[r].Length == cellsCount
        invariant forall r, q :: 0 <= r < q < steps ==> configurations[r] != configurations[q]
      {
        UpdateAll(configurations[step], configurations[step + 1]);
        IterateStep(table, init, step);
        step := step + 1;
      }
      forall r | 0 <= r < steps - 1
        ensures trace[r + 1] == Update(table, trace[r])
      {
        IterateStep(table, init, r);
      }
    }
  }
}
