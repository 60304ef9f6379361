/**
  The genetic algorithm that evolves 128-entry rule tables for the leader
  election automaton. Every random draw of the source (initial rule tables,
  initial configurations, cut points, coins, elite picks, flip positions)
  is an explicit parameter, so each operation is a deterministic array
  transformation proved against a value-level specification.
*/
module CaEvolution {
  import opened Automaton
  import opened Genetics
  import opened CaSimulator
  import opened Additional
  import opened Memory

  datatype Option<T> = None | Some(value: T)

  /**
    The best individual recorded so far: the generation it was found in,
    its fitness, and its rule table (None while the record has never been
    improved, when the source's buffer is still uninitialised).
  */
  datatype Record = Record(generation: int, fitness: real, rules: Option<seq<int>>)

  /** The draws of one crossover: two elite slots and two cut points. */
  datatype PairDraw = PairDraw(elite1: int, elite2: int, cut1: int, cut2: int)

  /** The draws of one mutateTwoRandomRules call. */
  datatype FlipDraw = FlipDraw(first: int, second: int)

  /**
    The draws of one generation: one PairDraw per crossover, one FlipDraw
    per individual, and for every individual of the new population the
    initial configurations of its fitness runs.
  */
  datatype GenerationDraws = GenerationDraws(pairs: seq<PairDraw>, flips: seq<FlipDraw>, starts: seq<seq<seq<int>>>)

  /** population_size / 5 in C++ integer division, which truncates toward zero. */
  function EliteSize(populationSize: int): (e: int)
    ensures populationSize >= 0 ==> 0 <= 5 * e <= populationSize < 5 * e + 5
    ensures populationSize < 0 ==> 5 * e - 5 < populationSize <= 5 * e <= 0
  {
    if populationSize >= 0 then populationSize / 5 else -((-populationSize) / 5)
  }

  /** The number of crossovers that refill slots [eliteSize, size) two at a time. */
  function PairCount(size: int, eliteSize: int): (n: int)
    ensures n >= 0
    ensures size > eliteSize ==> eliteSize + 2 * n - 2 < size <= eliteSize + 2 * n
    ensures size <= eliteSize ==> n == 0
  {
    if size > eliteSize then (size - eliteSize + 1) / 2 else 0
  }

  /** Elite picks below the elite size (rand() % elite_size) and cut points below 128. */
  predicate ValidPairs(pairs: seq<PairDraw>, eliteSize: int) {
    forall p :: 0 <= p < |pairs| ==>
      && 0 <= pairs[p].elite1 < eliteSize && 0 <= pairs[p].elite2 < eliteSize
      && 0 <= pairs[p].cut1 < RulesCount && 0 <= pairs[p].cut2 < RulesCount
  }

  /** Flip positions below 128 (rand() % rules_count). */
  predicate ValidFlips(flips: seq<FlipDraw>) {
    forall j :: 0 <= j < |flips| ==> 0 <= flips[j].first < RulesCount && 0 <= flips[j].second < RulesCount
  }

  /**
    Slot j of the new population before mutation: slots below the elite
    size copy the elites, and every later slot holds one child of the
    two-point crossover of two elite copies, the pair doing slots
    eliteSize + 2p and eliteSize + 2p + 1 giving child 1 to the first.
  */
  function BredSlot(pop: seq<seq<int>>, eliteIndices: seq<int>, pairs: seq<PairDraw>, j: int): (slot: seq<int>)
    requires forall i :: 0 <= i < |eliteIndices| ==> 0 <= eliteIndices[i] < |pop|
    requires forall k :: 0 <= k < |pop| ==> |pop[k]| == RulesCount
    requires 0 <= j
    requires j >= |eliteIndices| ==> (j - |eliteIndices|) / 2 < |pairs|
    requires ValidPairs(pairs, |eliteIndices|)
    ensures |slot| == RulesCount
  {
    var e := |eliteIndices|;
    if j < e then pop[eliteIndices[j]]
    else
      var d := pairs[(j - e) / 2];
      var cuts := OrderedCuts(d.cut1, d.cut2);
      var children := TwoPointChildren(pop[eliteIndices[d.elite1]], pop[eliteIndices[d.elite2]], cuts.0, cuts.1);
      if (j - e) % 2 == 0 then children.0 else children.1
  }

  function Bred(pop: seq<seq<int>>, eliteIndices: seq<int>, pairs: seq<PairDraw>, size: int): (next: seq<seq<int>>)
    requires forall i :: 0 <= i < |eliteIndices| ==> 0 <= eliteIndices[i] < |pop|
    requires forall k :: 0 <= k < |pop| ==> |pop[k]| == RulesCount
    requires |eliteIndices| <= size
    requires |pairs| == PairCount(size, |eliteIndices|)
    requires ValidPairs(pairs, |eliteIndices|)
    ensures |next| == size
    ensures forall j :: 0 <= j < size ==> |next[j]| == RulesCount
  {
    seq(size, j requires 0 <= j < size => BredSlot(pop, eliteIndices, pairs, j))
  }

  /** Slot by slot: the elite copies first, then the children of the pairs. */
  lemma BredSlots(pop: seq<seq<int>>, eliteIndices: seq<int>, pairs: seq<PairDraw>, size: int)
    requires forall i :: 0 <= i < |eliteIndices| ==> 0 <= eliteIndices[i] < |pop|
    requires forall k :: 0 <= k < |pop| ==> |pop[k]| == RulesCount
    requires |eliteIndices| <= size
    requires |pairs| == PairCount(size, |eliteIndices|)
    requires ValidPairs(pairs, |eliteIndices|)
    ensures forall j :: 0 <= j < |eliteIndices| ==> Bred(pop, eliteIndices, pairs, size)[j] == pop[eliteIndices[j]]
    ensures forall j :: |eliteIndices| <= j < size ==> Bred(pop, eliteIndices, pairs, size)[j] == BredSlot(pop, eliteIndices, pairs, j)
  { }

  /** The two slots the crossover of pair p writes. */
  lemma BredSlotPair(pop: seq<seq<int>>, eliteIndices: seq<int>, pairs: seq<PairDraw>, p: int)
    requires forall i :: 0 <= i < |eliteIndices| ==> 0 <= eliteIndices[i] < |pop|
    requires forall k :: 0 <= k < |pop| ==> |pop[k]| == RulesCount
    requires 0 <= p < |pairs|
    requires ValidPairs(pairs, |eliteIndices|)
    ensures var e := |eliteIndices|;
      var d := pairs[p];
      var cuts := OrderedCuts(d.cut1, d.cut2);
      var children := TwoPointChildren(pop[eliteIndices[d.elite1]], pop[eliteIndices[d.elite2]], cuts.0, cuts.1);
      BredSlot(pop, eliteIndices, pairs, e + 2 * p) == children.0
      && BredSlot(pop, eliteIndices, pairs, e + 2 * p + 1) == children.1
  {
    var e := |eliteIndices|;
    assert (e + 2 * p - e) / 2 == p && (e + 2 * p - e) % 2 == 0;
    assert (e + 2 * p + 1 - e) / 2 == p && (e + 2 * p + 1 - e) % 2 == 1;
  }

  /** Breeding rule tables gives rule tables. */
  lemma BredRuleTables(pop: seq<seq<int>>, eliteIndices: seq<int>, pairs: seq<PairDraw>, size: int)
    requires forall i :: 0 <= i < |eliteIndices| ==> 0 <= eliteIndices[i] < |pop|
    requires forall k :: 0 <= k < |pop| ==> |pop[k]| == RulesCount && IsBinary(pop[k])
    requires |eliteIndices| <= size
    requires |pairs| == PairCount(size, |eliteIndices|)
    requires ValidPairs(pairs, |eliteIndices|)
    ensures forall j :: 0 <= j < size ==> IsRuleTable(Bred(pop, eliteIndices, pairs, size)[j])
  {
    var e := |eliteIndices|;
    forall j | 0 <= j < size
      ensures IsRuleTable(Bred(pop, eliteIndices, pairs, size)[j])
    {
      if j >= e {
        var d := pairs[(j - e) / 2];
        var cuts := OrderedCuts(d.cut1, d.cut2);
        TwoPointRuleTables(pop[eliteIndices[d.elite1]], pop[eliteIndices[d.elite2]], cuts.0, cuts.1);
      }
    }
  }

  /**
    When every elite index is the same individual t, as the never-popped
    queue makes it, every bred individual is a copy of t: crossover of a
    table with itself changes nothing.
  */
  lemma BredClones(pop: seq<seq<int>>, eliteIndices: seq<int>, pairs: seq<PairDraw>, size: int, t: int)
    requires forall i :: 0 <= i < |eliteIndices| ==> eliteIndices[i] == t
    requires 0 <= t < |pop|
    requires forall k :: 0 <= k < |pop| ==> |pop[k]| == RulesCount
    requires |eliteIndices| <= size
    requires |pairs| == PairCount(size, |eliteIndices|)
    requires ValidPairs(pairs, |eliteIndices|)
    ensures forall j :: 0 <= j < size ==> Bred(pop, eliteIndices, pairs, size)[j] == pop[t]
  {
    var e := |eliteIndices|;
    forall j | 0 <= j < size
      ensures Bred(pop, eliteIndices, pairs, size)[j] == pop[t]
    {
      if j >= e {
        var d := pairs[(j - e) / 2];
        var cuts := OrderedCuts(d.cut1, d.cut2);
        TwoPointSameParent(pop[t], cuts.0, cuts.1);
      }
    }
  }

  /** One generation's population and its fitness values, index-aligned. */
  datatype GenerationState = GenerationState(pop: seq<seq<int>>, fitness: seq<real>)

  /** The top individual of one generation: its fitness and its rule table. */
  datatype Candidate = Candidate(fitness: real, rules: seq<int>)

  /** The fitness and the rule table of the individual get_elite_individuals_indices ranks first. */
  function TopOf(s: GenerationState): (c: Candidate)
    requires 0 < |s.fitness| <= |s.pop|
    ensures forall k :: 0 <= k < |s.fitness| ==> s.fitness[k] <= c.fitness
    ensures exists k :: 0 <= k < |s.fitness| && c == Candidate(s.fitness[k], s.pop[k])
  {
    TopIndexIsTop(s.fitness);
    var top := TopIndex(s.fitness);
    Candidate(s.fitness[top], s.pop[top])
  }

  /**
    The best-record bookkeeping of the generational loop, from generation
    `gen` on: a generation's top replaces the record only when strictly
    fitter, and the loop stops right after an improvement whose fitness
    `nearOptimal` accepts.
  */
  function Track(gen: int, tops: seq<Candidate>, best: Record, nearOptimal: real -> bool): (r: Record)
    ensures r.fitness >= best.fitness
    ensures r.rules.None? ==> r == best
    decreases |tops| - gen
  {
    if gen < 0 || gen >= |tops| then best
    else
      var c := tops[gen];
      var improves := c.fitness > best.fitness;
      var recorded := if improves then Record(gen, c.fitness, Some(c.rules)) else best;
      if improves && nearOptimal(c.fitness) then recorded
      else Track(gen + 1, tops, recorded, nearOptimal)
  }

  /** Past the last top, Track leaves the record alone. */
  lemma TrackDone(gen: int, tops: seq<Candidate>, best: Record, nearOptimal: real -> bool)
    requires gen >= |tops|
    ensures Track(gen, tops, best, nearOptimal) == best
  {
  }

  /**
    One generation of Track: the record after looking at top `c` of
    generation `gen`, and whether the loop stops there.
  */
  lemma TrackStep(gen: int, tops: seq<Candidate>, best: Record, nearOptimal: real -> bool, recorded: Record, stop: bool)
    requires 0 <= gen < |tops|
    requires recorded == if tops[gen].fitness > best.fitness then Record(gen, tops[gen].fitness, Some(tops[gen].rules)) else best
    requires stop == (tops[gen].fitness > best.fitness && nearOptimal(tops[gen].fitness))
    ensures stop ==> Track(gen, tops, best, nearOptimal) == recorded
    ensures !stop ==> Track(gen, tops, best, nearOptimal) == Track(gen + 1, tops, recorded, nearOptimal)
  {
  }

  /** The record is either left alone or replaced by a strictly fitter top of a later generation. */
  lemma {:induction false} TrackRecordsATop(gen: int, tops: seq<Candidate>, best: Record, nearOptimal: real -> bool)
    requires 0 <= gen
    ensures var r := Track(gen, tops, best, nearOptimal);
      r == best
      || (&& gen <= r.generation < |tops| && r.fitness > best.fitness
          && r.fitness == tops[r.generation].fitness && r.rules == Some(tops[r.generation].rules))
    decreases |tops| - gen
  {
    if gen < |tops| {
      var c := tops[gen];
      var recorded := if c.fitness > best.fitness then Record(gen, c.fitness, Some(c.rules)) else best;
      if !(c.fitness > best.fitness && nearOptimal(c.fitness)) {
        TrackRecordsATop(gen + 1, tops, recorded, nearOptimal);
      }
    }
  }

  /**
    The record ends at least as fit as every top it scanned (every top
    when the search did not stop early, the tops up to the recorded
    generation when it did), and strictly fitter than the tops scanned
    before the recorded generation.
  */
  lemma {:induction false} TrackIsRunningMax(gen: int, tops: seq<Candidate>, best: Record, nearOptimal: real -> bool)
    requires 0 <= gen
    ensures var r := Track(gen, tops, best, nearOptimal);
      && r.fitness >= best.fitness
      && (forall g :: gen <= g < |tops| && (g <= r.generation || !nearOptimal(r.fitness) || r == best) ==>
            tops[g].fitness <= r.fitness)
      && (r != best ==> forall g :: gen <= g < r.generation && g < |tops| ==> tops[g].fitness < r.fitness)
    decreases |tops| - gen
  {
    if gen < |tops| {
      var c := tops[gen];
      var recorded := if c.fitness > best.fitness then Record(gen, c.fitness, Some(c.rules)) else best;
      if !(c.fitness > best.fitness && nearOptimal(c.fitness)) {
        TrackRecordsATop(gen + 1, tops, recorded, nearOptimal);
        TrackIsRunningMax(gen + 1, tops, recorded, nearOptimal);
      }
    }
  }

  /** The engine: its parameters, as the constructor derives them. */
  class Evolution {
    const cells: int
    const generations: int
    const populationSize: int
    const mutationP: real
    const configsForFitness: int
    const steps: int
    const rulesCount: int
    const eliteSize: int
    /**
      The early-stop test `fitness > 0.99` of run(), made on the 32-bit float
      fitness against the double 0.99. Float rounding is not modelled, so the
      test is a parameter: 99/100 as a float lies above 0.99, so the source's
      test accepts it, whereas `f > 0.99` on exact reals does not.
    */
    const nearOptimal: real -> bool

    /** The derived parameters as the constructor sets them. */
    predicate Valid() {
      && steps == 2 * cells
      && rulesCount == RulesCount
      && eliteSize == EliteSize(populationSize)
    }

    /** Parameters under which the source's loops and divisions are defined. */
    predicate Runnable() {
      populationSize >= 0 && cells >= 0 && configsForFitness > 0
    }

    constructor (cells: int, generations: int, populationSize: int, mutationP: real, configsForFitness: int,
                 nearOptimal: real -> bool)
      ensures Valid()
      ensures this.cells == cells && this.generations == generations
      ensures this.populationSize == populationSize && this.mutationP == mutationP
      ensures this.configsForFitness == configsForFitness && this.nearOptimal == nearOptimal
    {
      this.cells := cells;
      this.populationSize := populationSize;
      this.mutationP := mutationP;
      this.generations := generations;
      this.configsForFitness := configsForFitness;
      this.steps := cells * 2;
      this.rulesCount := 128;
      this.eliteSize := EliteSize(populationSize);
      this.nearOptimal := nearOptimal;
    }

    // -------------------------------------------------------------------
    // Value-level specification of one run
    // -------------------------------------------------------------------

    predicate IsPopulation(pop: seq<seq<int>>) {
      |pop| == populationSize && forall k :: 0 <= k < |pop| ==> |pop[k]| == RulesCount && IsBinary(pop[k])
    }

    /**
      The population buffers hold `pop`, row by row: one distinct 128-entry
      buffer per individual, none of them the buffer `other`.
    */
    ghost predicate Stores(population: array<array<int>>, pop: seq<seq<int>>, other: array<int>)
      reads population, population[..]
    {
      && population.Length == |pop|
      && (forall r :: 0 <= r < |pop| ==> population[r].Length == RulesCount && population[r] != other && population[r][..] == pop[r])
      && (forall r, q :: 0 <= r < q < |pop| ==> population[r] != population[q])
    }

    /** The initial configurations of one individual's fitness runs. */
    predicate IsStartsOf(starts: seq<seq<int>>) {
      |starts| == configsForFitness && forall s :: 0 <= s < |starts| ==> |starts[s]| == cells && IsBinary(starts[s])
    }

    predicate IsStarts(starts: seq<seq<seq<int>>>) {
      |starts| == populationSize && forall k :: 0 <= k < |starts| ==> IsStartsOf(starts[k])
    }

    predicate IsGenerationDraws(d: GenerationDraws) {
      && |d.pairs| == PairCount(populationSize, eliteSize)
      && ValidPairs(d.pairs, eliteSize)
      && |d.flips| == populationSize
      && ValidFlips(d.flips)
      && IsStarts(d.starts)
    }

    /** calculate_fitness: entry k is the success share of individual k over its runs. */
    function PopulationFitness(pop: seq<seq<int>>, starts: seq<seq<seq<int>>>): (fitness: seq<real>)
      requires Runnable() && IsPopulation(pop) && IsStarts(starts)
      ensures |fitness| == populationSize
      ensures forall k :: 0 <= k < populationSize ==> 0.0 <= fitness[k] <= 1.0
    {
      seq(populationSize, k requires 0 <= k < populationSize => Fitness(pop[k], starts[k], steps))
    }

    /** Every fitness value is a proportion of successful runs. */
    lemma PopulationFitnessBounds(pop: seq<seq<int>>, starts: seq<seq<seq<int>>>)
      requires Runnable() && IsPopulation(pop) && IsStarts(starts)
      ensures forall k :: 0 <= k < populationSize ==> 0.0 <= PopulationFitness(pop, starts)[k] <= 1.0
    {
      forall k | 0 <= k < populationSize
        ensures 0.0 <= PopulationFitness(pop, starts)[k] <= 1.0
      {
        FitnessInUnitInterval(pop[k], starts[k], steps);
      }
    }

    /** The elite copies, the crossover children and then two flips in every individual. */
    function NextPopulation(pop: seq<seq<int>>, fitness: seq<real>, d: GenerationDraws): (next: seq<seq<int>>)
      requires Valid() && Runnable() && eliteSize >= 1
      requires IsPopulation(pop) && |fitness| == populationSize && IsGenerationDraws(d)
      ensures |next| == populationSize
      ensures forall j :: 0 <= j < populationSize ==> |next[j]| == RulesCount
    {
      var bred := Bred(pop, seq(eliteSize, _ => TopIndex(fitness)), d.pairs, populationSize);
      seq(populationSize, j requires 0 <= j < populationSize => FlipTwo(bred[j], d.flips[j].first, d.flips[j].second))
    }

    lemma NextPopulationIsPopulation(pop: seq<seq<int>>, fitness: seq<real>, d: GenerationDraws)
      requires Valid() && Runnable() && eliteSize >= 1
      requires IsPopulation(pop) && |fitness| == populationSize && IsGenerationDraws(d)
      ensures IsPopulation(NextPopulation(pop, fitness, d))
    {
      var elites := seq(eliteSize, _ => TopIndex(fitness));
      var bred := Bred(pop, elites, d.pairs, populationSize);
      BredRuleTables(pop, elites, d.pairs, populationSize);
      forall j | 0 <= j < populationSize
        ensures IsRuleTable(NextPopulation(pop, fitness, d)[j])
      {
        FlipTwoAt(bred[j], d.flips[j].first, d.flips[j].second);
      }
    }

    /**
      Every individual of the next generation is the top individual of the
      current one with two genes flipped, so it differs from it in exactly
      two genes, or in none when both flips hit the same gene.
    */
    lemma NextPopulationNearTop(pop: seq<seq<int>>, fitness: seq<real>, d: GenerationDraws)
      requires Valid() && Runnable() && eliteSize >= 1
      requires IsPopulation(pop) && |fitness| == populationSize && IsGenerationDraws(d)
      ensures forall j :: 0 <= j < populationSize ==>
                Distance(pop[TopIndex(fitness)], NextPopulation(pop, fitness, d)[j])
                == if d.flips[j].first == d.flips[j].second then 0 else 2
    {
      var t := TopIndex(fitness);
      var elites := seq(eliteSize, _ => t);
      var bred := Bred(pop, elites, d.pairs, populationSize);
      BredClones(pop, elites, d.pairs, populationSize, t);
      forall j | 0 <= j < populationSize
        ensures Distance(pop[t], NextPopulation(pop, fitness, d)[j])
                == if d.flips[j].first == d.flips[j].second then 0 else 2
      {
        assert bred[j] == pop[t];
        FlipTwoDistance(pop[t], d.flips[j].first, d.flips[j].second);
      }
    }

    /** The inputs a run needs: as the source demands them, with every draw in range. */
    predicate IsRunInput(initial: seq<seq<int>>, initialStarts: seq<seq<seq<int>>>, draws: seq<GenerationDraws>) {
      && Valid() && Runnable()
      && (generations > 0 ==> eliteSize >= 1)
      && IsPopulation(initial) && IsStarts(initialStarts)
      && |draws| >= generations && forall g :: 0 <= g < |draws| ==> IsGenerationDraws(draws[g])
    }

    /** One generation: the next population and its fitness values. */
    function Advance(s: GenerationState, d: GenerationDraws): (t: GenerationState)
      requires Valid() && Runnable() && eliteSize >= 1
      requires IsPopulation(s.pop) && |s.fitness| == populationSize && IsGenerationDraws(d)
      ensures IsPopulation(t.pop) && |t.fitness| == populationSize
    {
      NextPopulationIsPopulation(s.pop, s.fitness, d);
      var next := NextPopulation(s.pop, s.fitness, d);
      GenerationState(next, PopulationFitness(next, d.starts))
    }

    /** The population of generation g and its fitness values, g = 0 being the initial population. */
    function Trajectory(initial: seq<seq<int>>, initialStarts: seq<seq<seq<int>>>, draws: seq<GenerationDraws>, g: int): (s: GenerationState)
      requires IsRunInput(initial, initialStarts, draws)
      requires 0 <= g && (g == 0 || g <= generations)
      ensures IsPopulation(s.pop) && |s.fitness| == populationSize
      decreases g
    {
      if g == 0 then GenerationState(initial, PopulationFitness(initial, initialStarts))
      else Advance(Trajectory(initial, initialStarts, draws, g - 1), draws[g - 1])
    }

    /** Every fitness value of every generation is a proportion. */
    lemma TrajectoryFitnessBounds(initial: seq<seq<int>>, initialStarts: seq<seq<seq<int>>>, draws: seq<GenerationDraws>, g: int)
      requires IsRunInput(initial, initialStarts, draws)
      requires 0 <= g && (g == 0 || g <= generations)
      ensures forall k :: 0 <= k < populationSize ==> 0.0 <= Trajectory(initial, initialStarts, draws, g).fitness[k] <= 1.0
    {
      if g == 0 {
        PopulationFitnessBounds(initial, initialStarts);
      } else {
        var prev := Trajectory(initial, initialStarts, draws, g - 1);
        NextPopulationIsPopulation(prev.pop, prev.fitness, draws[g - 1]);
        PopulationFitnessBounds(Advance(prev, draws[g - 1]).pop, draws[g - 1].starts);
      }
    }

    /** The top individual of every generation the loop looks at, as get_elite_individuals_indices finds it. */
    function Tops(initial: seq<seq<int>>, initialStarts: seq<seq<seq<int>>>, draws: seq<GenerationDraws>): (tops: seq<Candidate>)
      requires IsRunInput(initial, initialStarts, draws)
      ensures |tops| == if generations > 0 then generations else 0
    {
      seq(if generations > 0 then generations else 0,
          g requires 0 <= g < generations => TopOf(Trajectory(initial, initialStarts, draws, g)))
    }

    /**
      The generations a run goes through, listed: the initial population
      and its fitness first, each later entry one Advance of the entry
      before.
    */
    ghost predicate IsTrace(initial: seq<seq<int>>, initialStarts: seq<seq<seq<int>>>, draws: seq<GenerationDraws>, states: seq<GenerationState>)
      requires IsRunInput(initial, initialStarts, draws)
    {
      && |states| == (if generations > 0 then generations else 0) + 1
      && states[0] == GenerationState(initial, PopulationFitness(initial, initialStarts))
      && forall g {:trigger states[g], draws[g]} :: 0 <= g < |states| - 1 ==>
           && IsPopulation(states[g].pop) && |states[g].fitness| == populationSize
           && states[g + 1] == Advance(states[g], draws[g])
    }

    lemma TraceExists(initial: seq<seq<int>>, initialStarts: seq<seq<seq<int>>>, draws: seq<GenerationDraws>)
      requires IsRunInput(initial, initialStarts, draws)
      ensures exists states :: IsTrace(initial, initialStarts, draws, states)
    {
      var n := if generations > 0 then generations else 0;
      var states := seq(n + 1, g requires 0 <= g <= n => Trajectory(initial, initialStarts, draws, g));
      assert IsTrace(initial, initialStarts, draws, states);
    }

    /** The listed generations are the trajectory, entry by entry. */
    lemma {:induction false} TraceIsTrajectory(initial: seq<seq<int>>, initialStarts: seq<seq<seq<int>>>, draws: seq<GenerationDraws>, states: seq<GenerationState>, g: int)
      requires IsRunInput(initial, initialStarts, draws) && IsTrace(initial, initialStarts, draws, states)
      requires 0 <= g < |states|
      ensures states[g] == Trajectory(initial, initialStarts, draws, g)
      decreases g
    {
      hide NextPopulation;
      if g > 0 {
        TraceIsTrajectory(initial, initialStarts, draws, states, g - 1);
        assert states[g] == Advance(states[g - 1], draws[g - 1]);
      }
    }

    /** The tops of the listed generations, but the last. */
    ghost function TraceTops(initial: seq<seq<int>>, initialStarts: seq<seq<seq<int>>>, draws: seq<GenerationDraws>, states: seq<GenerationState>): (tops: seq<Candidate>)
      requires IsRunInput(initial, initialStarts, draws) && IsTrace(initial, initialStarts, draws, states)
      ensures |tops| == |states| - 1
    {
      seq(|states| - 1, g requires 0 <= g < |states| - 1 =>
        TraceAt(initial, initialStarts, draws, states, g);
        TopOf(states[g]))
    }

    /** The entries of a listed run, one at a time. */
    lemma TraceAt(initial: seq<seq<int>>, initialStarts: seq<seq<seq<int>>>, draws: seq<GenerationDraws>, states: seq<GenerationState>, g: int)
      requires IsRunInput(initial, initialStarts, draws) && IsTrace(initial, initialStarts, draws, states)
      requires 0 <= g < |states| - 1
      ensures IsPopulation(states[g].pop) && |states[g].fitness| == populationSize
      ensures states[g + 1] == Advance(states[g], draws[g])
    {
      // IsTrace states its facts about each generation for that generation's
      // entry and draws; naming draws[g] selects generation g.
      assert draws[g] == draws[g];
    }

    lemma TraceTopsAt(initial: seq<seq<int>>, initialStarts: seq<seq<seq<int>>>, draws: seq<GenerationDraws>, states: seq<GenerationState>, g: int)
      requires IsRunInput(initial, initialStarts, draws) && IsTrace(initial, initialStarts, draws, states)
      requires 0 <= g < |states| - 1
      ensures 0 < |states[g].fitness| == |states[g].pop|
      ensures TraceTops(initial, initialStarts, draws, states)[g] == TopOf(states[g])
    {
      TraceAt(initial, initialStarts, draws, states, g);
    }

    lemma TraceTopsAreTops(initial: seq<seq<int>>, initialStarts: seq<seq<seq<int>>>, draws: seq<GenerationDraws>, states: seq<GenerationState>)
      requires IsRunInput(initial, initialStarts, draws) && IsTrace(initial, initialStarts, draws, states)
      ensures TraceTops(initial, initialStarts, draws, states) == Tops(initial, initialStarts, draws)
    {
      var tops := TraceTops(initial, initialStarts, draws, states);
      forall g | 0 <= g < |tops|
        ensures tops[g] == Tops(initial, initialStarts, draws)[g]
      {
        TraceIsTrajectory(initial, initialStarts, draws, states, g);
      }
    }

    /** The record run() returns. */
    function RunRecord(initial: seq<seq<int>>, initialStarts: seq<seq<seq<int>>>, draws: seq<GenerationDraws>): (r: Record)
      requires IsRunInput(initial, initialStarts, draws)
      ensures r.fitness >= 0.0
      ensures r.rules.None? ==> r == Record(0, 0.0, None)
    {
      Track(0, Tops(initial, initialStarts, draws), Record(0, 0.0, None), nearOptimal)
    }

    /**
      The returned record is empty exactly when it is (generation 0, fitness
      0); otherwise it holds the top individual of one of the generations
      run, a rule table whose fitness is a positive proportion.
    */
    lemma RunRecordBounds(initial: seq<seq<int>>, initialStarts: seq<seq<seq<int>>>, draws: seq<GenerationDraws>)
      requires IsRunInput(initial, initialStarts, draws)
      ensures var r := RunRecord(initial, initialStarts, draws);
        && (r.rules.None? <==> r == Record(0, 0.0, None))
        && (r.rules.Some? ==>
              && 0 <= r.generation < generations
              && 0.0 < r.fitness <= 1.0
              && IsRuleTable(r.rules.value)
              && var s := Trajectory(initial, initialStarts, draws, r.generation);
                 r.rules.value == s.pop[TopIndex(s.fitness)] && r.fitness == s.fitness[TopIndex(s.fitness)])
    {
      var tops := Tops(initial, initialStarts, draws);
      var r := RunRecord(initial, initialStarts, draws);
      TrackRecordsATop(0, tops, Record(0, 0.0, None), nearOptimal);
      if r != Record(0, 0.0, None) {
        var s := Trajectory(initial, initialStarts, draws, r.generation);
        TrajectoryFitnessBounds(initial, initialStarts, draws, r.generation);
        assert tops[r.generation] == Candidate(s.fitness[TopIndex(s.fitness)], s.pop[TopIndex(s.fitness)]);
      }
    }

    /**
      No individual of a generation the loop looked at is fitter than the
      returned record, and every generation before the recorded one is
      strictly less fit.
    */
    lemma RunRecordIsBest(initial: seq<seq<int>>, initialStarts: seq<seq<seq<int>>>, draws: seq<GenerationDraws>, g: int, k: int)
      requires IsRunInput(initial, initialStarts, draws)
      requires 0 <= g < generations && 0 <= k < populationSize
      ensures var r := RunRecord(initial, initialStarts, draws);
        var f := Trajectory(initial, initialStarts, draws, g).fitness;
        && (g <= r.generation || !nearOptimal(r.fitness) || r.rules.None? ==> f[k] <= r.fitness)
        && (r.rules.Some? && g < r.generation ==> f[k] < r.fitness)
    {
      var r := RunRecord(initial, initialStarts, draws);
      var tops := Tops(initial, initialStarts, draws);
      var f := Trajectory(initial, initialStarts, draws, g).fitness;
      assert f[k] <= tops[g].fitness by {
        TopIndexIsTop(f);
      }
      assert (g <= r.generation || !nearOptimal(r.fitness) || r.rules.None? ==> tops[g].fitness <= r.fitness)
          && (r.rules.Some? && g < r.generation ==> tops[g].fitness < r.fitness) by {
        TrackRecordsATop(0, tops, Record(0, 0.0, None), nearOptimal);
        TrackIsRunningMax(0, tops, Record(0, 0.0, None), nearOptimal);
      }
    }

    /** The record stays empty exactly when every individual of every generation run has fitness 0. */
    lemma RunRecordEmpty(initial: seq<seq<int>>, initialStarts: seq<seq<seq<int>>>, draws: seq<GenerationDraws>)
      requires IsRunInput(initial, initialStarts, draws)
      ensures RunRecord(initial, initialStarts, draws).rules.None?
          <==> forall g, k :: 0 <= g < generations && 0 <= k < populationSize ==>
                 Trajectory(initial, initialStarts, draws, g).fitness[k] == 0.0
    {
      var r := RunRecord(initial, initialStarts, draws);
      RunRecordBounds(initial, initialStarts, draws);
      if r.rules.None? {
        forall g, k | 0 <= g < generations && 0 <= k < populationSize
          ensures Trajectory(initial, initialStarts, draws, g).fitness[k] == 0.0
        {
          RunRecordIsBest(initial, initialStarts, draws, g, k);
          TrajectoryFitnessBounds(initial, initialStarts, draws, g);
        }
      } else {
        var s := Trajectory(initial, initialStarts, draws, r.generation);
        assert s.fitness[TopIndex(s.fitness)] != 0.0;
      }
    }

    /** With no generation to run the record stays empty. */
    lemma NoGenerations(initial: seq<seq<int>>, initialStarts: seq<seq<seq<int>>>, draws: seq<GenerationDraws>)
      requires IsRunInput(initial, initialStarts, draws) && generations <= 0
      ensures RunRecord(initial, initialStarts, draws) == Record(0, 0.0, None)
    {
    }

    // -------------------------------------------------------------------
    // Operations
    // -------------------------------------------------------------------

    /** std::pair's `<`: by fitness, then by index. */
    static predicate PairLess(f1: real, i1: int, f2: real, i2: int) {
      f1 < f2 || (f1 == f2 && i1 < i2)
    }

    /**
      Pushes every (fitness, index) pair into a max-priority queue and reads
      its top elite-size times without popping it. The queue is kept as its
      top pair, the only element ever read.
    */
    method GetEliteIndices(fitness: array<real>) returns (eliteIndices: array<int>)
      requires Valid() && populationSize >= 0
      requires fitness.Length == populationSize
      ensures fresh(eliteIndices) && eliteIndices.Length == eliteSize
      ensures forall i :: 0 <= i < eliteSize ==> populationSize > 0 && eliteIndices[i] == TopIndex(fitness[..])
    {
      var hasTop := false;
      var topFitness := 0.0;
      var topIndex := 0;
      var i := 0;
      while i < populationSize
        invariant 0 <= i <= populationSize
        invariant hasTop <==> i > 0
        invariant i > 0 ==> topIndex == TopIndex(fitness[..i]) && topFitness == fitness[topIndex]
      {
        assert fitness[..i + 1][..i] == fitness[..i];
        if !hasTop || PairLess(topFitness, topIndex, fitness[i], i) {
          topFitness, topIndex := fitness[i], i;
        }
        hasTop := true;
        i := i + 1;
      }
      assert fitness[..populationSize] == fitness[..];
      eliteIndices := new int[eliteSize];
      var e := 0;
      while e < eliteSize
        invariant 0 <= e <= eliteSize
        invariant forall j :: 0 <= j < e ==> eliteIndices[j] == topIndex
      {
        eliteIndices[e] := topIndex;
        e := e + 1;
      }
    }

    /**
      For every individual, runs one simulation per given initial
      configuration and stores the share of runs that ended in success.
    */
    method CalculateFitness(population: array<array<int>>, starts: seq<seq<seq<int>>>) returns (fitness: array<real>)
      requires Valid() && Runnable()
      requires population.Length == populationSize
      requires forall k :: 0 <= k < populationSize ==> IsRuleTable(population[k][..])
      requires IsStarts(starts)
      ensures fitness.Length == populationSize
      ensures forall k :: 0 <= k < populationSize ==> fitness[k] == Fitness(population[k][..], starts[k], steps)
    {
      fitness := new real[populationSize];
      var individual := 0;
      while individual < populationSize
        invariant 0 <= individual <= populationSize
        invariant forall k :: 0 <= k < individual ==> fitness[k] == Fitness(population[k][..], starts[k], steps)
      {
        assert IsStartsOf(starts[individual]);
        var f := IndividualFitness(population[individual], starts[individual]);
        fitness[individual] := f;
        individual := individual + 1;
      }
    }

    /** The body of calculate_fitness for one individual: its simulator, its runs and the average. */
    method IndividualFitness(rules: array<int>, runs: seq<seq<int>>) returns (fitness: real)
      requires Valid() && Runnable()
      requires IsRuleTable(rules[..]) && IsStartsOf(runs)
      ensures fitness == Fitness(rules[..], runs, steps)
    {
      fitness := 0.0;
      var sim := new Simulator(cells as nat, rules);
      var simId := 0;
      while simId < configsForFitness
        invariant 0 <= simId <= configsForFitness
        invariant sim.rules == rules && sim.cellsCount == cells
        invariant fitness == Successes(rules[..], runs[..simId], steps) as real
      {
        assert runs[..simId + 1][..simId] == runs[..simId];
        var res := sim.RunSimulation(runs[simId], steps);
        if res.success == 1 {
          fitness := fitness + 1.0;
        }
        simId := simId + 1;
      }
      assert runs[..configsForFitness] == runs;
      fitness := fitness / configsForFitness as real;
    }

    /** single_point_cross with the cut point given. */
    method SinglePointCross(rule1: array<int>, rule2: array<int>, crossPoint: int) returns (res1: array<int>, res2: array<int>)
      requires Valid()
      requires rule1.Length == RulesCount && rule2.Length == RulesCount
      requires 0 <= crossPoint < RulesCount
      ensures fresh(res1) && fresh(res2) && res1 != res2 && res1.Length == RulesCount && res2.Length == RulesCount
      ensures (res1[..], res2[..]) == SinglePointChildren(rule1[..], rule2[..], crossPoint)
    {
      res1 := new int[rulesCount];
      CopySinglePoint(res1, rule1, rule2, crossPoint);
      res2 := new int[rulesCount];
      CopySinglePoint(res2, rule2, rule1, crossPoint);
      SinglePointAt(rule1[..], rule2[..], crossPoint);
      assert res1[..] == SinglePointChildren(rule1[..], rule2[..], crossPoint).0;
      assert res2[..] == SinglePointChildren(rule1[..], rule2[..], crossPoint).1;
    }

    /** The two memcpy calls that write one single-point child: the head of `head`, then the start of `tail`. */
    method CopySinglePoint(res: array<int>, head: array<int>, tail: array<int>, crossPoint: int)
      requires Valid()
      requires res.Length == RulesCount && head.Length == RulesCount && tail.Length == RulesCount
      requires res != head && res != tail
      requires 0 <= crossPoint < RulesCount
      modifies res
      ensures forall i :: 0 <= i < RulesCount ==> res[i] == if i < crossPoint then head[i] else tail[i - crossPoint]
    {
      MemCopy(res, 0, head, 0, crossPoint);
      MemCopy(res, crossPoint, tail, 0, rulesCount - crossPoint);
    }

    /** two_point_cross with the two cut points given; they are put in order with swap first. */
    method TwoPointCross(rule1: array<int>, rule2: array<int>, cut1: int, cut2: int) returns (res1: array<int>, res2: array<int>)
      requires Valid()
      requires rule1.Length == RulesCount && rule2.Length == RulesCount
      requires 0 <= cut1 < RulesCount && 0 <= cut2 < RulesCount
      ensures fresh(res1) && fresh(res2) && res1 != res2 && res1.Length == RulesCount && res2.Length == RulesCount
      ensures var cuts := OrderedCuts(cut1, cut2);
        (res1[..], res2[..]) == TwoPointChildren(rule1[..], rule2[..], cuts.0, cuts.1)
    {
      var cp1 := new IntCell(cut1);
      var cp2 := new IntCell(cut2);
      if cp2.value < cp1.value {
        Swap(cp1, cp2);
      }
      var lo, hi := cp1.value, cp2.value;
      assert (lo, hi) == OrderedCuts(cut1, cut2);
      res1 := new int[rulesCount];
      CopyTwoPoint(res1, rule1, rule2, lo, hi);
      res2 := new int[rulesCount];
      CopyTwoPoint(res2, rule2, rule1, lo, hi);
      TwoPointAt(rule1[..], rule2[..], lo, hi);
      assert res1[..] == TwoPointChildren(rule1[..], rule2[..], lo, hi).0;
      assert res2[..] == TwoPointChildren(rule1[..], rule2[..], lo, hi).1;
    }

    /** The three memcpy calls that write one two-point child: outer from `outer`, [lo, hi) from `inner`. */
    method CopyTwoPoint(res: array<int>, outer: array<int>, inner: array<int>, lo: int, hi: int)
      requires Valid()
      requires res.Length == RulesCount && outer.Length == RulesCount && inner.Length == RulesCount
      requires res != outer && res != inner
      requires 0 <= lo <= hi <= RulesCount
      modifies res
      ensures forall i :: 0 <= i < RulesCount ==> res[i] == if lo <= i < hi then inner[i] else outer[i]
    {
      MemCopy(res, 0, outer, 0, lo);
      MemCopy(res, lo, inner, lo, hi - lo);
      MemCopy(res, hi, outer, hi, rulesCount - hi);
    }

    /** uniform_cross with the coin of every position given. */
    method UniformCross(rule1: array<int>, rule2: array<int>, origins: seq<int>) returns (res1: array<int>, res2: array<int>)
      requires Valid()
      requires rule1.Length == RulesCount && rule2.Length == RulesCount && |origins| == RulesCount
      ensures fresh(res1) && fresh(res2) && res1 != res2 && res1.Length == RulesCount && res2.Length == RulesCount
      ensures (res1[..], res2[..]) == UniformChildren(rule1[..], rule2[..], origins)
    {
      res1 := new int[rulesCount];
      res2 := new int[rulesCount];
      var i := 0;
      while i < rulesCount
        invariant 0 <= i <= rulesCount
        invariant forall j :: 0 <= j < i ==> res1[j] == (if origins[j] == 0 then rule1[j] else rule2[j])
        invariant forall j :: 0 <= j < i ==> res2[j] == (if origins[j] == 0 then rule2[j] else rule1[j])
      {
        var origin := origins[i];
        if origin == 0 {
          res1[i] := rule1[i];
          res2[i] := rule2[i];
        } else {
          res1[i] := rule2[i];
          res2[i] := rule1[i];
        }
        i := i + 1;
      }
      assert res1[..] == UniformChildren(rule1[..], rule2[..], origins).0;
      assert res2[..] == UniformChildren(rule1[..], rule2[..], origins).1;
    }

    /** mutate with the draw of every position given (RAND_MAX-scaled rand() in the source). */
    method Mutate(rules: array<int>, draws: seq<real>)
      requires Valid()
      requires rules.Length == RulesCount && |draws| == RulesCount
      modifies rules
      ensures rules[..] == Mutated(old(rules[..]), draws, mutationP)
    {
      var i := 0;
      while i < rulesCount
        invariant 0 <= i <= rulesCount
        invariant forall j :: 0 <= j < i ==> rules[j] == (if draws[j] < mutationP then 1 - old(rules[j]) else old(rules[j]))
        invariant forall j :: i <= j < rulesCount ==> rules[j] == old(rules[j])
      {
        var r := draws[i];
        if r < mutationP {
          rules[i] := 1 - rules[i];
        }
        i := i + 1;
      }
    }

    /** mutateTwoRandomRules with the two positions given. */
    method MutateTwoRandomRules(rules: array<int>, firstRuleId: int, secondRuleId: int)
      requires Valid()
      requires rules.Length == RulesCount
      requires 0 <= firstRuleId < RulesCount && 0 <= secondRuleId < RulesCount
      modifies rules
      ensures rules[..] == FlipTwo(old(rules[..]), firstRuleId, secondRuleId)
    {
      rules[firstRuleId] := 1 - rules[firstRuleId];
      rules[secondRuleId] := 1 - rules[secondRuleId];
    }

    /**
      Builds the new population of one generation before mutation: fresh
      copies of the elites, then the two-point crossover children of
      randomly picked elite copies, two slots per crossover.
    */
    method Breed(population: array<array<int>>, ghost pop: seq<seq<int>>, eliteIndices: array<int>, pairs: seq<PairDraw>)
      returns (newPopulation: array<array<int>>)
      requires Valid() && Runnable()
      requires population.Length == populationSize && |pop| == populationSize
      requires forall r :: 0 <= r < populationSize ==> population[r].Length == RulesCount && population[r][..] == pop[r]
      requires eliteIndices.Length == eliteSize
      requires forall i :: 0 <= i < eliteSize ==> 0 <= eliteIndices[i] < populationSize
      requires |pairs| == PairCount(populationSize, eliteSize)
      requires ValidPairs(pairs, eliteSize)
      ensures fresh(newPopulation) && newPopulation.Length == populationSize
      ensures forall r :: 0 <= r < populationSize ==> fresh(newPopulation[r]) && newPopulation[r].Length == RulesCount
      ensures forall r, q :: 0 <= r < q < populationSize ==> newPopulation[r] != newPopulation[q]
      ensures forall j :: 0 <= j < populationSize ==> newPopulation[j][..] == Bred(pop, eliteIndices[..], pairs, populationSize)[j]
    {
      // The slots are tracked through CrossInto's contract alone.
      hide BredSlot, Bred;
      ghost var elites := eliteIndices[..];
      var placeholder := new int[0];
      newPopulation := new array<int>[populationSize](_ => placeholder);
      CopyElites(newPopulation, population, pop, eliteIndices);
      CrossAll(newPopulation, pop, elites, pairs);
      BredSlots(pop, elites, pairs, populationSize);
    }

    /** The elite loop: copies each elite's rule table into a fresh buffer in the first slots. */
    method CopyElites(newPopulation: array<array<int>>, population: array<array<int>>, ghost pop: seq<seq<int>>, eliteIndices: array<int>)
      requires Valid() && Runnable()
      requires newPopulation != population && newPopulation.Length == populationSize
      requires population.Length == populationSize && |pop| == populationSize
      requires forall r :: 0 <= r < populationSize ==> population[r].Length == RulesCount && population[r][..] == pop[r]
      requires eliteIndices.Length == eliteSize
      requires forall i :: 0 <= i < eliteSize ==> 0 <= eliteIndices[i] < populationSize
      modifies newPopulation
      ensures forall r :: 0 <= r < eliteSize ==> fresh(newPopulation[r]) && newPopulation[r].Length == RulesCount
      ensures forall r, q :: 0 <= r < q < eliteSize ==> newPopulation[r] != newPopulation[q]
      ensures forall r :: 0 <= r < eliteSize ==> newPopulation[r][..] == pop[eliteIndices[r]]
    {
      var i := 0;
      while i < eliteSize
        invariant 0 <= i <= eliteSize
        invariant forall r :: 0 <= r < i ==> fresh(newPopulation[r]) && newPopulation[r].Length == RulesCount
        invariant forall r, q :: 0 <= r < q < i ==> newPopulation[r] != newPopulation[q]
        invariant forall r :: 0 <= r < i ==> newPopulation[r][..] == pop[eliteIndices[r]]
      {
        var row := new int[rulesCount];
        MemCopy(row, 0, population[eliteIndices[i]], 0, rulesCount);
        assert row[..] == pop[eliteIndices[i]];
        newPopulation[i] := row;
        i := i + 1;
      }
    }

    /**
      The crossover loop: fills every slot past the elites with the children
      of the drawn pairs, in fresh buffers, and leaves the elite slots alone.
    */
    method CrossAll(newPopulation: array<array<int>>, ghost pop: seq<seq<int>>, ghost elites: seq<int>, pairs: seq<PairDraw>)
      requires Valid()
      requires newPopulation.Length == populationSize && |elites| == eliteSize && eliteSize <= populationSize
      requires forall k :: 0 <= k < eliteSize ==> 0 <= elites[k] < |pop|
      requires forall k :: 0 <= k < |pop| ==> |pop[k]| == RulesCount
      requires |pairs| == PairCount(populationSize, eliteSize) && ValidPairs(pairs, eliteSize)
      requires forall r :: 0 <= r < eliteSize ==> newPopulation[r].Length == RulesCount && newPopulation[r][..] == pop[elites[r]]
      modifies newPopulation
      ensures forall r :: 0 <= r < eliteSize ==> newPopulation[r] == old(newPopulation[r])
      ensures forall r :: eliteSize <= r < populationSize ==>
                fresh(newPopulation[r]) && newPopulation[r].Length == RulesCount && newPopulation[r][..] == BredSlot(pop, elites, pairs, r)
      ensures forall r, q :: eliteSize <= r < q < populationSize ==> newPopulation[r] != newPopulation[q]
    {
      hide BredSlot;
      var i := eliteSize;
      var p := 0;
      while i < populationSize
        invariant eliteSize <= i && i == eliteSize + 2 * p
        invariant i >= populationSize ==> i <= populationSize + 1
        invariant forall r :: 0 <= r < eliteSize ==> newPopulation[r] == old(newPopulation[r])
        invariant forall r :: eliteSize <= r < i && r < populationSize ==>
                    fresh(newPopulation[r]) && newPopulation[r].Length == RulesCount && newPopulation[r][..] == BredSlot(pop, elites, pairs, r)
        invariant forall r, q :: eliteSize <= r < q < populationSize && q < i ==> newPopulation[r] != newPopulation[q]
      {
        CrossInto(newPopulation, pop, elites, pairs, p, i);
        i := i + 2;
        p := p + 1;
      }
    }

    /**
      One pass of the crossover loop: crosses the two elite copies pair p
      picks and stores child 1 in slot i and, when there is room, child 2 in
      slot i + 1.
    */
    method CrossInto(newPopulation: array<array<int>>, ghost pop: seq<seq<int>>, ghost elites: seq<int>, pairs: seq<PairDraw>, p: int, i: int)
      requires Valid()
      requires newPopulation.Length == populationSize && |elites| == eliteSize
      requires forall k :: 0 <= k < eliteSize ==> 0 <= elites[k] < |pop|
      requires forall k :: 0 <= k < |pop| ==> |pop[k]| == RulesCount
      requires 0 <= p < |pairs| && ValidPairs(pairs, eliteSize)
      requires i == eliteSize + 2 * p && i < populationSize
      requires forall r :: 0 <= r < eliteSize ==> newPopulation[r].Length == RulesCount && newPopulation[r][..] == pop[elites[r]]
      modifies newPopulation
      ensures forall r :: 0 <= r < populationSize && r != i && r != i + 1 ==> newPopulation[r] == old(newPopulation[r])
      ensures fresh(newPopulation[i]) && newPopulation[i].Length == RulesCount
      ensures newPopulation[i][..] == BredSlot(pop, elites, pairs, i)
      ensures i + 1 < populationSize ==>
                && fresh(newPopulation[i + 1]) && newPopulation[i + 1].Length == RulesCount && newPopulation[i + 1] != newPopulation[i]
                && newPopulation[i + 1][..] == BredSlot(pop, elites, pairs, i + 1)
    {
      hide TwoPointChildren;
      var d := pairs[p];
      assert newPopulation[d.elite1][..] == pop[elites[d.elite1]] && newPopulation[d.elite2][..] == pop[elites[d.elite2]];
      var child1, child2 := TwoPointCross(newPopulation[d.elite1], newPopulation[d.elite2], d.cut1, d.cut2);
      BredSlotPair(pop, elites, pairs, p);
      if i < populationSize - 1 {
        newPopulation[i] := child1;
        newPopulation[i + 1] := child2;
      } else {
        newPopulation[i] := child1;
      }
    }

    /** Applies mutateTwoRandomRules to every individual, elites included. */
    method MutateAll(population: array<array<int>>, flips: seq<FlipDraw>)
      requires Valid()
      requires population.Length == populationSize
      requires forall r :: 0 <= r < populationSize ==> population[r].Length == RulesCount
      requires forall r, q :: 0 <= r < q < populationSize ==> population[r] != population[q]
      requires |flips| == populationSize && ValidFlips(flips)
      modifies set r | 0 <= r < population.Length :: population[r]
      ensures forall j :: 0 <= j < populationSize ==>
                population[j][..] == FlipTwo(old(population[j][..]), flips[j].first, flips[j].second)
    {
      var i := 0;
      while i < populationSize
        invariant 0 <= i <= populationSize
        invariant forall j :: 0 <= j < i ==>
                    population[j][..] == FlipTwo(old(population[j][..]), flips[j].first, flips[j].second)
        invariant forall j :: i <= j < populationSize ==> population[j][..] == old(population[j][..])
      {
        MutateTwoRandomRules(population[i], flips[i].first, flips[i].second);
        i := i + 1;
      }
    }

    /**
      The generational loop. `initial` is the random initial population,
      `initialStarts` the initial configurations of its fitness runs and
      draws[g] everything generation g draws. Returns the generation, the
      fitness and the rule table of the best individual recorded.
    */
    method Run(initial: seq<seq<int>>, initialStarts: seq<seq<seq<int>>>, draws: seq<GenerationDraws>)
      returns (bestGeneration: int, bestFitness: real, bestRules: array<int>)
      requires IsRunInput(initial, initialStarts, draws)
      ensures var r := RunRecord(initial, initialStarts, draws);
        && bestGeneration == r.generation && bestFitness == r.fitness
        && bestRules.Length == RulesCount
        && (r.rules.Some? ==> bestRules[..] == r.rules.value)
    {
      // Every step below is one of the helpers' contracts, so the bodies of
      // the specification functions are kept out of this proof.
      hide *;
      bestFitness := 0.0;
      bestGeneration := 0;
      ghost var record := Record(0, 0.0, None);
      ghost var final := RunRecord(initial, initialStarts, draws);
      ghost var states: seq<GenerationState>, tops: seq<Candidate>;
      var population: array<array<int>>, fitness: array<real>;
      bestRules, population, fitness, states, tops := Start(initial, initialStarts, draws, final);

      var gen := 0;
      while gen < generations
        invariant 0 <= gen && (gen == 0 || gen <= generations)
        invariant Kept(states, tops, final, gen, population, fitness, bestRules, bestGeneration, bestFitness, record)
        decreases generations - gen
      {
        var stop;
        stop, bestGeneration, bestFitness, population, fitness, record :=
          Step(initial, initialStarts, draws, states, tops, final, gen, population, fitness, bestRules, bestGeneration, bestFitness, record);
        if stop {
          break;
        }
        gen := gen + 1;
      }
      if gen >= generations {
        KeptDone(initial, initialStarts, draws, states, tops, final, gen, population, fitness, bestRules, bestGeneration, bestFitness, record);
      }
    }

    /**
      The ghost context of run()'s loop: `states` is the listed run, `tops`
      its generations' tops and `final` the record run() returns.
    */
    ghost predicate IsRunTrace(initial: seq<seq<int>>, initialStarts: seq<seq<seq<int>>>, draws: seq<GenerationDraws>,
                               states: seq<GenerationState>, tops: seq<Candidate>, final: Record)
    {
      // The run's inputs, the listed generations, their tops and the final
      // record belong together, and are named as one fact.
      var traced :=
        && IsRunInput(initial, initialStarts, draws)
        && IsTrace(initial, initialStarts, draws, states)
        && tops == TraceTops(initial, initialStarts, draws, states)
        && final == RunRecord(initial, initialStarts, draws);
      traced
    }

    /** The trace's tops, tracked from the empty record, give RunRecord. */
    lemma TraceRecord(initial: seq<seq<int>>, initialStarts: seq<seq<seq<int>>>, draws: seq<GenerationDraws>,
                      states: seq<GenerationState>, tops: seq<Candidate>)
      requires IsRunInput(initial, initialStarts, draws)
      requires IsTrace(initial, initialStarts, draws, states)
      requires tops == TraceTops(initial, initialStarts, draws, states)
      ensures Track(0, tops, Record(0, 0.0, None), nearOptimal) == RunRecord(initial, initialStarts, draws)
    {
      TraceTopsAreTops(initial, initialStarts, draws, states);
    }

    /** The loop's invariant with every generation run: the record is final. */
    lemma KeptDone(initial: seq<seq<int>>, initialStarts: seq<seq<seq<int>>>, draws: seq<GenerationDraws>,
                   states: seq<GenerationState>, tops: seq<Candidate>, final: Record, gen: int,
                   population: array<array<int>>, fitness: array<real>, bestRules: array<int>,
                   bestGeneration: int, bestFitness: real, record: Record)
      requires IsRunTrace(initial, initialStarts, draws, states, tops, final) && gen >= generations
      requires Kept(states, tops, final, gen, population, fitness, bestRules, bestGeneration, bestFitness, record)
      ensures record == final
      ensures && bestGeneration == record.generation && bestFitness == record.fitness
              && bestRules.Length == RulesCount && (record.rules.Some? ==> bestRules[..] == record.rules.value)
    {
      TrackDone(gen, tops, record, nearOptimal);
    }

    /**
      run()'s set-up: the buffer for the best rules, the initial population
      and its fitness values, in fresh buffers, and the listed run they start.
    */
    method Start(initial: seq<seq<int>>, initialStarts: seq<seq<seq<int>>>, draws: seq<GenerationDraws>,
                 ghost final: Record)
      returns (bestRules: array<int>, population: array<array<int>>, fitness: array<real>,
               ghost states: seq<GenerationState>, ghost tops: seq<Candidate>)
      requires IsRunInput(initial, initialStarts, draws)
      requires final == RunRecord(initial, initialStarts, draws)
      ensures fresh(bestRules)
      ensures IsRunTrace(initial, initialStarts, draws, states, tops, final)
      ensures Kept(states, tops, final, 0, population, fitness, bestRules, 0, 0.0, Record(0, 0.0, None))
    {
      TraceExists(initial, initialStarts, draws);
      states :| IsTrace(initial, initialStarts, draws, states);
      tops := TraceTops(initial, initialStarts, draws, states);
      TraceRecord(initial, initialStarts, draws, states, tops);
      bestRules := new int[rulesCount];
      population := InitialPopulation(initial);
      fitness := CalculateFitness(population, initialStarts);
      assert fitness[..] == states[0].fitness;
      assert Stores(population, states[0].pop, bestRules);
    }

    /**
      What run()'s loop keeps at the head of generation `gen`: the buffers
      hold the trace's population and fitness values for that generation,
      the best-so-far variables hold `record`, and finishing the tracking
      from `record` gives the final record.
    */
    ghost predicate Kept(states: seq<GenerationState>, tops: seq<Candidate>, final: Record, gen: int,
                         population: array<array<int>>, fitness: array<real>, bestRules: array<int>,
                         bestGeneration: int, bestFitness: real, record: Record)
      reads population, population[..], fitness, bestRules
    {
      // The buffers, the best-so-far variables and the record of generation
      // `gen` belong together, and are named as one fact.
      var kept :=
        && 0 <= gen < |states|
        && Stores(population, states[gen].pop, bestRules)
        && fitness[..] == states[gen].fitness
        && Track(gen, tops, record, nearOptimal) == final
        && bestRules.Length == RulesCount
        && bestGeneration == record.generation && bestFitness == record.fitness
        && (record.rules.Some? ==> bestRules[..] == record.rules.value);
      kept
    }

    /**
      One iteration of run()'s loop, stated against the trace: it keeps the
      loop's invariants for the next generation, or stops with the final record.
    */
    method Step(initial: seq<seq<int>>, initialStarts: seq<seq<seq<int>>>, draws: seq<GenerationDraws>,
                ghost states: seq<GenerationState>, ghost tops: seq<Candidate>, ghost final: Record,
                gen: int, population: array<array<int>>, fitness: array<real>, bestRules: array<int>,
                bestGeneration: int, bestFitness: real, ghost record: Record)
      returns (stop: bool, newBestGeneration: int, newBestFitness: real,
               newPopulation: array<array<int>>, newFitness: array<real>, ghost newRecord: Record)
      requires IsRunTrace(initial, initialStarts, draws, states, tops, final) && 0 <= gen < generations
      requires Kept(states, tops, final, gen, population, fitness, bestRules, bestGeneration, bestFitness, record)
      modifies bestRules
      ensures stop ==> && newRecord == final
                       && newBestGeneration == newRecord.generation && newBestFitness == newRecord.fitness
                       && bestRules.Length == RulesCount && (newRecord.rules.Some? ==> bestRules[..] == newRecord.rules.value)
      ensures !stop ==> Kept(states, tops, final, gen + 1, newPopulation, newFitness, bestRules, newBestGeneration, newBestFitness, newRecord)
    {
      TraceAt(initial, initialStarts, draws, states, gen);
      ghost var c := TopOf(states[gen]);
      newRecord := if c.fitness > record.fitness then Record(gen, c.fitness, Some(c.rules)) else record;
      TraceTopsAt(initial, initialStarts, draws, states, gen);
      stop, newBestGeneration, newBestFitness, newPopulation, newFitness :=
        Generation(population, fitness, states[gen], states[gen + 1], draws[gen], gen, bestRules, bestGeneration, bestFitness);
      TrackStep(gen, tops, record, nearOptimal, newRecord, stop);
    }

    /**
      One pass of run()'s loop body: the elite indices, the best-record
      update, the early stop, and otherwise the next generation.
    */
    method Generation(population: array<array<int>>, fitness: array<real>, ghost s: GenerationState, ghost t: GenerationState, d: GenerationDraws,
                      gen: int, bestRules: array<int>, bestGeneration: int, bestFitness: real)
      returns (stop: bool, newBestGeneration: int, newBestFitness: real, newPopulation: array<array<int>>, newFitness: array<real>)
      requires Valid() && Runnable() && eliteSize >= 1
      requires IsPopulation(s.pop) && |s.fitness| == populationSize && IsGenerationDraws(d)
      requires Stores(population, s.pop, bestRules) && fitness[..] == s.fitness
      requires t == Advance(s, d)
      requires bestRules.Length == RulesCount
      modifies bestRules
      ensures var c := TopOf(s);
        && stop == (c.fitness > bestFitness && nearOptimal(c.fitness))
        && (c.fitness > bestFitness ==> newBestGeneration == gen && newBestFitness == c.fitness && bestRules[..] == c.rules)
        && (c.fitness <= bestFitness ==> newBestGeneration == bestGeneration && newBestFitness == bestFitness && bestRules[..] == old(bestRules[..]))
      ensures !stop ==> Stores(newPopulation, t.pop, bestRules) && newFitness[..] == t.fitness
    {
      ghost var pop := s.pop;
      assert s == GenerationState(pop, fitness[..]);
      var eliteIndices := GetEliteIndices(fitness);
      ghost var top := TopIndex(fitness[..]);
      newBestGeneration, newBestFitness := bestGeneration, bestFitness;
      newPopulation, newFitness := population, fitness;
      stop := false;
      if fitness[eliteIndices[0]] > bestFitness {
        newBestFitness := fitness[eliteIndices[0]];
        newBestGeneration := gen;
        MemCopy(bestRules, 0, population[eliteIndices[0]], 0, rulesCount);
        assert bestRules[..] == pop[top];
        if nearOptimal(newBestFitness) {
          stop := true;
          return;
        }
      }
      newPopulation, newFitness := NextGeneration(population, pop, fitness, eliteIndices, d);
    }

    /** The initial population: one fresh 128-entry buffer per given rule table. */
    method InitialPopulation(initial: seq<seq<int>>) returns (population: array<array<int>>)
      requires Valid() && Runnable() && IsPopulation(initial)
      ensures fresh(population) && population.Length == populationSize
      ensures forall r :: 0 <= r < populationSize ==> fresh(population[r]) && population[r].Length == RulesCount
      ensures forall r, q :: 0 <= r < q < populationSize ==> population[r] != population[q]
      ensures forall r :: 0 <= r < populationSize ==> population[r][..] == initial[r]
    {
      var placeholder := new int[0];
      population := new array<int>[populationSize](_ => placeholder);
      var i := 0;
      while i < populationSize
        invariant 0 <= i <= populationSize
        invariant forall r :: 0 <= r < i ==> fresh(population[r]) && population[r].Length == RulesCount
        invariant forall r, q :: 0 <= r < q < i ==> population[r] != population[q]
        invariant forall r :: 0 <= r < i ==> population[r][..] == initial[r]
      {
        population[i] := new int[rulesCount](j requires 0 <= j < RulesCount => initial[i][j]);
        assert population[i][..] == initial[i];
        i := i + 1;
      }
    }

    /**
      The part of one generation after the best-record update: elite copies,
      crossover children, mutation of every individual, and the fitness of
      the new population.
    */
    method NextGeneration(population: array<array<int>>, ghost pop: seq<seq<int>>, fitness: array<real>, eliteIndices: array<int>, d: GenerationDraws)
      returns (newPopulation: array<array<int>>, newFitness: array<real>)
      requires Valid() && Runnable() && eliteSize >= 1
      requires IsPopulation(pop) && IsGenerationDraws(d)
      requires population.Length == populationSize && fitness.Length == populationSize
      requires forall r :: 0 <= r < populationSize ==> population[r].Length == RulesCount && population[r][..] == pop[r]
      requires eliteIndices.Length == eliteSize
      requires forall i :: 0 <= i < eliteSize ==> eliteIndices[i] == TopIndex(fitness[..])
      ensures fresh(newPopulation) && newPopulation.Length == populationSize
      ensures forall r :: 0 <= r < populationSize ==> fresh(newPopulation[r]) && newPopulation[r].Length == RulesCount
      ensures forall r, q :: 0 <= r < q < populationSize ==> newPopulation[r] != newPopulation[q]
      ensures forall r :: 0 <= r < populationSize ==> newPopulation[r][..] == Advance(GenerationState(pop, fitness[..]), d).pop[r]
      ensures newFitness.Length == populationSize
      ensures newFitness[..] == Advance(GenerationState(pop, fitness[..]), d).fitness
    {
      ghost var top := TopIndex(fitness[..]);
      ghost var next := NextPopulation(pop, fitness[..], d);
      assert eliteIndices[..] == seq(eliteSize, _ => top);
      newPopulation := Breed(population, pop, eliteIndices, d.pairs);
      MutateAll(newPopulation, d.flips);
      assert forall r :: 0 <= r < populationSize ==> newPopulation[r][..] == next[r];
      NextPopulationIsPopulation(pop, fitness[..], d);
      newFitness := CalculateFitness(newPopulation, d.starts);
      assert newFitness[..] == PopulationFitness(next, d.starts);
    }
  }
}
