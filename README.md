# Cellular-automaton leader election, evolved by a genetic algorithm

This project is a Dafny model of the two classes that hold the repository's
logic, plus the two helpers they share.

**The simulator, `CA_leader_simulator`.**
- It runs a one-dimensional cellular automaton of 0/1 cells.
- The neighbourhood has radius 3 and no wraparound.
- Each update looks every cell's 7-bit neighbourhood code up in a 128-entry rule table.
- A run stops at the first update that changes nothing, or when its step budget is spent.

**The evolution engine, `CA_leader_evolution`.**
- It evolves rule tables under which a random configuration settles on exactly one active cell (the "leader").
- A table's fitness is the share of its simulations that end that way.
- Each generation records the best table so far and can stop early.
- Otherwise the elites are copied forward, the population is refilled by two-point crossover of elite copies, and every individual has two genes flipped.

The model has six modules:

- `Automaton` (automaton.dfy) is the value-level specification of the automaton:
  - the neighbourhood code and the synchronous `Update`;
  - `Iterate` (k updates) and `Ones` (the number of active cells);
  - `Simulate`, the outcome `<success, step, ones, constant>` of a run;
  - lemmas relating the outcome to the first fixed point of the iterates.
- `CaSimulator` (ca_simulator.dfy) is the class `Simulator`. Its methods are the source's loops over arrays:
  - `ApplyRule`, `UpdateAll`, `CountOnes` and `ConfigsIdentical`;
  - the `RunSimulation` loop, which replaces the `currentConfig` field every step;
  - the row-by-row `RunSimulationRetTransitions`.

  Each method is proved against the `Automaton` functions.
- `Genetics` (genetics.dfy) is the value-level specification of the operators, with their lemmas:
  - the three crossovers and the two mutations;
  - the top of the (fitness, index) max-priority queue;
  - fitness as a proportion of successes.
- `CaEvolution` (ca_evolution.dfy) is the class `Evolution`. Its methods work on arrays of rule buffers:
  - elite selection, fitness, the crossovers and the mutations;
  - the generational loop `Run`.

  It also holds the value-level trajectory of a run (`Trajectory`, `RunRecord`). `Run` returns exactly the record that `RunRecord` computes.
- `Additional` (additional.dfy) holds `swap` on two int cells and `maxInArray`.
- `Memory` (memory.dfy) holds `memcpy` on int arrays.

Every random draw of the source is an explicit input:
- initial configurations and the initial population;
- cut points and coins;
- elite picks and flip positions;
- the mutation draws.

The model keeps the source's quirks as they are written:
- `get_elite_individuals_indices` never pops its queue, so every elite index is the same argmax. Ties go to the largest index. Each generation's population is therefore that individual with two genes flipped (`NextPopulationNearTop`).
- `single_point_cross` copies the child's tail from the *start* of the other parent, not from the cut (`SinglePointTailIsShifted`).
- A fixed point found at loop step `s` is reported as step `s - 1`, which can be -1.
- `elite_size` is `population_size / 5` in integer division. The `round` around it has nothing left to round, so fewer than five individuals give an elite size of 0.

Two consequences of these quirks, as the model states them:
- `get_elite_individuals_indices` returns one index repeated `elite_size` times, not distinct indices in fitness order.
- `elite_size` is not clamped to at least 1.

The early-stop test `fitness > 0.99` compares a 32-bit float with the double 0.99. The model does not compute float rounding, so this test is the engine's parameter `nearOptimal`, a predicate on the exact fitness. With 100 fitness runs, 99 successes give the float 0.99000001, which the source accepts; `f > 0.99` on exact reals would not. The source's behaviour is `nearOptimal` accepting exactly the fitness values whose float rounding lies above 0.99.

## Model

| member | source | states |
|---|---|---|
| Automaton.NeighbourCode | ca_simulator.hpp:93-101 | for a 0/1 configuration the neighbourhood code lies in [0, 127] |
| Automaton.WeightedSumRange | ca_simulator.hpp:94-101 | the partial weighted sum over offsets from..+3 lies in [0, 2^(4-from)) |
| Automaton.NeighbourCodeTerms | ca_simulator.hpp:94-101 | the code is 64·c[i-3] + 32·c[i-2] + 16·c[i-1] + 8·c[i] + 4·c[i+1] + 2·c[i+2] + c[i+3], with cells outside the configuration counting 0 |
| Automaton.Update | ca_simulator.hpp:56-58 | the update keeps the configuration's length and keeps it 0/1 when the rule table is 0/1 |
| Automaton.FixedPointIsEquality | ca_simulator.hpp:123-128 | agreeing cell by cell with the update is the same as being equal to it |
| Automaton.Iterate | ca_simulator.hpp:52-81 | k updates keep the length and keep a 0/1 configuration 0/1 |
| Automaton.IterateShift | ca_simulator.hpp:78-80 | k+1 updates of c are k updates of the update of c |
| Automaton.Ones | ca_simulator.hpp:111-118 | the number of cells equal to 1, at most the length of the configuration |
| Automaton.OnesIsCardinality | ca_simulator.hpp:111-118 | the count of ones is the number of positions holding 1 |
| Automaton.Simulate | ca_simulator.hpp:52-86 | the outcome of run_simulation from a given loop step: stop at the first update that changes nothing, reporting (ones == 1, step - 1, ones, 1), or report (0, steps, ones, 0) when the budget is spent; success implies one 1 and constant, and a non-constant run is a failure that reports the budget |
| Automaton.SimulateBounds | ca_simulator.hpp:52-86 | success and constant are 0/1; 0 <= ones <= cells; success implies one 1 and constant; a constant run reports a step in [step-1, steps-2]; a non-constant run reports failure and the budget |
| Automaton.SimulateOutOfSteps | ca_simulator.hpp:83-86 | a spent budget reports (0, steps, ones of the current configuration, 0) |
| Automaton.SimulateAtFixedPoint | ca_simulator.hpp:60-76 | at a fixed point the run reports (ones == 1, step - 1, ones, 1) |
| Automaton.SimulateReachesFixedPoint | ca_simulator.hpp:52-76 | if the first fixed point is after k updates, the run reports step + k - 1 and the ones of that configuration |
| Automaton.SimulateWithoutFixedPoint | ca_simulator.hpp:52-86 | if no fixed point appears within the budget, the run reports (0, steps, ones after steps updates (or of the initial configuration when steps <= 0), 0) |
| Automaton.FirstFixedPointFrom | ca_simulator.hpp:52-62 | if some iterate below the budget is a fixed point, there is a first one |
| Automaton.RunStopsIffFixedPoint | ca_simulator.hpp:52-86 | a whole run is constant exactly when one of the first `steps` iterates is a fixed point |
| Automaton.RunConstantStep | ca_simulator.hpp:60-76 | for a constant run, the reported step + 1 is the number of updates to the first fixed point, and ones is the count at that point |
| CaSimulator.Simulator.constructor | ca_simulator.hpp:24-28 | keeps the cell count and the rule table reference; a 0/1 table of 128 entries makes the simulator valid |
| CaSimulator.Simulator.ApplyRule | ca_simulator.hpp:90-105 | next[index] becomes rules[code of index]; every other cell of next is unchanged |
| CaSimulator.Simulator.UpdateAll | ca_simulator.hpp:56-58 | next holds the synchronous update of current |
| CaSimulator.Simulator.CountOnes | ca_simulator.hpp:111-118 | returns the count of cells equal to 1, in [0, cells] |
| CaSimulator.Simulator.ConfigsIdentical | ca_simulator.hpp:123-128 | true exactly when the two configurations agree at every index |
| CaSimulator.Simulator.RunSimulation | ca_simulator.hpp:52-86 | returns Simulate(rules, init, 0, steps) |
| CaSimulator.Simulator.RunSimulationRetTransitions | ca_simulator.hpp:172-198 | row 0 is init; row r+1 is the update of row r; row r is the r-th iterate of init; the rows are pairwise distinct fresh buffers |
| CaSimulator.NewRows | ca_simulator.hpp:175-178 | count distinct fresh rows of the given width |
| CaSimulator.CopyConfig | ca_simulator.hpp:182-185 | the row holds the given configuration |
| Genetics.SinglePointChildren | ca_evolution.hpp:186-201 | the two children of single_point_cross at a given cut: 128 genes each, each child keeping its own parent below the cut |
| Genetics.SinglePointAt | ca_evolution.hpp:194-198 | child 1 is rule1[i] below the cut and rule2[i - cut] from it; child 2 swaps the parents |
| Genetics.SinglePointRuleTables | ca_evolution.hpp:191-198 | children of 0/1 tables are 0/1 tables |
| Genetics.SinglePointTailIsShifted | ca_evolution.hpp:195 | a child gene after the cut can differ from both parents' genes at that position |
| Genetics.OrderedCuts | ca_evolution.hpp:206-208 | the cuts come out in ascending order and are the two given cuts |
| Genetics.TwoPointChildren | ca_evolution.hpp:203-222 | the two children of two_point_cross at ordered cuts: 128 genes each, each child keeping its own parent outside [lo, hi) |
| Genetics.TwoPointAt | ca_evolution.hpp:213-219 | child 1 takes rule2 inside [lo, hi) and rule1 outside; child 2 is the opposite |
| Genetics.TwoPointComplementary | ca_evolution.hpp:213-219 | at every position the children hold the two parents' genes between them |
| Genetics.TwoPointEqualCuts | ca_evolution.hpp:213-219 | equal cuts give back the parents |
| Genetics.TwoPointSameParent | ca_evolution.hpp:213-219 | crossing a table with itself gives two copies of it |
| Genetics.TwoPointRuleTables | ca_evolution.hpp:210-219 | children of 0/1 tables are 0/1 tables |
| Genetics.UniformChildren | ca_evolution.hpp:224-242 | the two children of uniform_cross for given coins: 128 genes each, and at every position either the parents' genes or the parents' genes exchanged |
| Genetics.UniformComplementary | ca_evolution.hpp:230-240 | the children are complementary per position and 0/1 when the parents are |
| Genetics.UniformExtremeCoins | ca_evolution.hpp:230-240 | all-zero coins give the parents; all-nonzero coins give them swapped |
| Genetics.Mutated | ca_evolution.hpp:244-252 | the table after mutate for given draws: same length, every gene kept or flipped to 1 - gene |
| Genetics.MutatedProperties | ca_evolution.hpp:244-252 | mutate flips exactly the genes whose draw is below the rate; the same draws flip it back; 0/1 stays 0/1; no draw below the rate changes nothing |
| Genetics.FlipTwo | ca_evolution.hpp:254-262 | the table after mutateTwoRandomRules at two given positions: same length, every other gene unchanged |
| Genetics.FlipTwoAt | ca_evolution.hpp:254-262 | exactly genes first and second flip (both flips cancel when they are equal); 0/1 stays 0/1 |
| Genetics.FlipTwoDistance | ca_evolution.hpp:259-261 | the mutated table differs in two genes, or in none when both positions are equal |
| Genetics.TopIndex | ca_evolution.hpp:139-149 | the index on top of the max-priority queue of (fitness, index) pairs, an index of the fitness array |
| Genetics.TopIndexIsTop | ca_evolution.hpp:140-146 | the queue's top has maximal fitness, and every later index has strictly lower fitness |
| Genetics.TopPairUnique | ca_evolution.hpp:140-146 | the top pair is unique, so the top does not depend on push order |
| Genetics.Successes | ca_evolution.hpp:161-176 | the success count is at most the number of runs |
| Genetics.Fitness | ca_evolution.hpp:155-181 | one individual's fitness: its success count over the given runs divided by their number, in [0, 1] |
| Genetics.FitnessInUnitInterval | ca_evolution.hpp:178-180 | fitness lies in [0, 1]; it is 1 exactly when every run succeeds and 0 exactly when none does |
| CaEvolution.EliteSize | ca_evolution.hpp:41 | the elite size is population_size / 5 truncated toward zero |
| CaEvolution.PairCount | ca_evolution.hpp:95 | the crossover loop runs ceil((size - elite) / 2) times, covering every slot past the elites |
| CaEvolution.BredSlot | ca_evolution.hpp:84-115 | slot j of the new population before mutation: an elite copy below elite_size, otherwise child 1 or 2 of its pair's two-point crossover of two elite copies; always 128 genes |
| CaEvolution.Bred | ca_evolution.hpp:83-115 | the new population before mutation, one BredSlot per slot: population_size tables of 128 genes |
| CaEvolution.BredSlotPair | ca_evolution.hpp:105-114 | pair p writes child 1 to slot elite + 2p and child 2 to slot elite + 2p + 1 |
| CaEvolution.BredRuleTables | ca_evolution.hpp:83-115 | breeding 0/1 tables gives 0/1 tables |
| CaEvolution.BredClones | ca_evolution.hpp:84-115 | when every elite index is the same individual, every bred slot is a copy of it |
| CaEvolution.TopOf | ca_evolution.hpp:68-74 | `fitness[elite_indices[0]]` and `population[elite_indices[0]]` of one generation: a fitness no individual exceeds, paired with the table of an individual that has it |
| CaEvolution.Track | ca_evolution.hpp:63-81 | the best record after the generations from gen on: replaced only by a strictly fitter top, stopping after an improvement nearOptimal accepts; never less fit than the record it starts from, and unchanged while no table is stored |
| CaEvolution.TrackRecordsATop | ca_evolution.hpp:70-81 | the record is kept, or replaced by a strictly fitter top of a later generation |
| CaEvolution.TrackIsRunningMax | ca_evolution.hpp:63-81 | the record is at least as fit as every top scanned (up to an early stop) and strictly fitter than every top before its generation |
| CaEvolution.Evolution.constructor | ca_evolution.hpp:31-42 | steps = 2·cells, rules_count = 128, elite_size = population_size / 5, the rest (and the early-stop test) as given |
| CaEvolution.Evolution.PopulationFitness | ca_evolution.hpp:151-184 | calculate_fitness over a whole population: one value per individual, index-aligned, each the success share of its runs and so in [0, 1] |
| CaEvolution.Evolution.PopulationFitnessBounds | ca_evolution.hpp:151-184 | every fitness value of a population is in [0, 1] |
| CaEvolution.Evolution.NextPopulation | ca_evolution.hpp:83-121 | the population after one generation of breeding and mutateTwoRandomRules: population_size tables of 128 genes |
| CaEvolution.Evolution.NextPopulationIsPopulation | ca_evolution.hpp:83-121 | one generation of breeding and mutation gives a population of 0/1 rule tables |
| CaEvolution.Evolution.NextPopulationNearTop | ca_evolution.hpp:83-121 | every new individual is the current top with two genes flipped: distance 2, or 0 when both flips hit the same gene |
| CaEvolution.Evolution.Advance | ca_evolution.hpp:83-125 | one pass of the loop body after the record update: breed, mutate every individual, replace the population and re-score it; the result is again a population of 0/1 rule tables with one fitness value each |
| CaEvolution.Evolution.Trajectory | ca_evolution.hpp:52-125 | the population and fitness values at the head of generation g: the scored initial population for g = 0, then one Advance per generation; always a population of 0/1 rule tables with one fitness value each |
| CaEvolution.Evolution.Tops | ca_evolution.hpp:63-74 | the top individual (fitness and table) that each generation of the loop looks at, one per generation to run |
| CaEvolution.Evolution.TrajectoryFitnessBounds | ca_evolution.hpp:60-125 | every fitness value of every generation is in [0, 1] |
| CaEvolution.Evolution.TraceIsTrajectory | ca_evolution.hpp:63-125 | the listed generations of a run equal the trajectory |
| CaEvolution.Evolution.RunRecord | ca_evolution.hpp:44-137 | the record run() returns: Track over every generation's top from the empty record; its fitness is never negative, and it is (0, 0, none) while no table is stored |
| CaEvolution.Evolution.RunRecordBounds | ca_evolution.hpp:44-137 | the record is empty exactly when no rule table was stored; otherwise it is the top of a generation that was run, with fitness in (0, 1] and a 0/1 table |
| CaEvolution.Evolution.RunRecordIsBest | ca_evolution.hpp:63-81 | no individual of a scanned generation is fitter than the record, and the generations before it are strictly less fit |
| CaEvolution.Evolution.RunRecordEmpty | ca_evolution.hpp:46-81 | no table is ever stored exactly when every individual of every generation run has fitness 0 |
| CaEvolution.Evolution.NoGenerations | ca_evolution.hpp:46-48 | with no generation to run, the record is (0, 0, none) |
| CaEvolution.Evolution.GetEliteIndices | ca_evolution.hpp:139-149 | elite_size entries, all equal to the top index of the queue |
| CaEvolution.Evolution.CalculateFitness | ca_evolution.hpp:151-184 | entry k is the success share of individual k over its runs |
| CaEvolution.Evolution.IndividualFitness | ca_evolution.hpp:155-181 | the success count of the runs divided by their number |
| CaEvolution.Evolution.SinglePointCross | ca_evolution.hpp:186-201 | two distinct fresh 128-gene children equal to SinglePointChildren |
| CaEvolution.Evolution.CopySinglePoint | ca_evolution.hpp:194-198 | the genes are head[i] below the cut and tail[i - cut] from it |
| CaEvolution.Evolution.TwoPointCross | ca_evolution.hpp:203-222 | two distinct fresh children equal to TwoPointChildren at the ordered cuts |
| CaEvolution.Evolution.CopyTwoPoint | ca_evolution.hpp:213-219 | the genes are inner[i] inside [lo, hi) and outer[i] outside it |
| CaEvolution.Evolution.UniformCross | ca_evolution.hpp:224-242 | two distinct fresh children equal to UniformChildren |
| CaEvolution.Evolution.Mutate | ca_evolution.hpp:244-252 | the table becomes Mutated(old table, draws, mutationP) |
| CaEvolution.Evolution.MutateTwoRandomRules | ca_evolution.hpp:254-262 | the table becomes FlipTwo(old table, first, second) |
| CaEvolution.Evolution.Breed | ca_evolution.hpp:83-115 | distinct fresh buffers holding Bred(pop, elites, pairs): elite copies, then the crossover children |
| CaEvolution.Evolution.CopyElites | ca_evolution.hpp:84-87 | slot r < elite_size is a fresh, distinct copy of individual elite[r] |
| CaEvolution.Evolution.CrossAll | ca_evolution.hpp:95-115 | every slot past the elites holds its bred child in a fresh, distinct buffer; the elite slots are untouched |
| CaEvolution.Evolution.CrossInto | ca_evolution.hpp:96-114 | one crossover writes slot i and, when there is room, slot i + 1, and nothing else |
| CaEvolution.Evolution.MutateAll | ca_evolution.hpp:117-121 | every individual, elites included, has its two drawn genes flipped |
| CaEvolution.Evolution.InitialPopulation | ca_evolution.hpp:52-58 | distinct fresh buffers holding the given initial tables |
| CaEvolution.Evolution.NextGeneration | ca_evolution.hpp:83-125 | the new buffers and fitness values are one Advance of the current generation |
| CaEvolution.Evolution.Generation | ca_evolution.hpp:65-125 | the record is replaced exactly when the top is strictly fitter; the loop stops exactly when it is replaced by a top that nearOptimal accepts (the source's `> 0.99`); otherwise the next generation is Advance |
| CaEvolution.Evolution.Start | ca_evolution.hpp:46-61 | the best-rules buffer, the initial population buffers and their fitness hold generation 0 of the run |
| CaEvolution.Evolution.Step | ca_evolution.hpp:63-128 | one loop iteration keeps the loop invariant for the next generation, or stops with the final record |
| CaEvolution.Evolution.KeptDone | ca_evolution.hpp:63-136 | with every generation run, the variables hold the final record |
| CaEvolution.Evolution.Run | ca_evolution.hpp:44-137 | returns the generation, fitness and rule table of RunRecord: the first strictly best top, stopping at the first improvement that nearOptimal accepts |
| Additional.Swap | additional.hpp:1-6 | the two values are exchanged |
| Additional.SwapTwice | additional.hpp:1-6 | swapping twice restores both values |
| Additional.MaxInArray | additional.hpp:8-15 | the result is >= 0, >= every element below size, and 0 or one of those elements; 0 when size <= 0 |
| Memory.MemCopy | ca_evolution.hpp:86 | the window of dst holds the source window, and every other cell of dst keeps its value |

## Left out

- Randomness and the clock (`srand(time(NULL))`, `rand()`): each draw is a parameter. The model does not check that draws are uniform or independent.
- The sparse random initial configuration of `run_simulation` (ca_simulator.hpp:43-49): the configuration is an input. The source leaves unset cells uninitialised.
- `run_simulation_view` (ca_simulator.hpp:130-170): it only prints the configurations.
- The `fprintf` of each generation's progress (ca_evolution.hpp:127): it is console output. `MaxInArray` is therefore modelled on its own and is not called from `Run`.
- `malloc`/`free`: buffers are Dafny arrays. The model therefore does not show the one leak in `run`: when only one slot is left, the second crossover child is neither stored nor freed (ca_evolution.hpp:111-114).
- main.cpp (parameter wiring, console output) and view_ca_through_time.py (plotting) are not part of this model.
- `mutate`, `single_point_cross` and `uniform_cross` are not called by `run` in the source. They are modelled and proved on their own.
- CaEvolution.Evolution.IndividualFitness: fitness is an exact real division, not a 32-bit float. Comparisons between fitness values are made on exact reals, so two values that round to the same float compare differently.
- CaEvolution.Evolution.Run: the early stop `fitness > 0.99` is the parameter `nearOptimal`, not a computed float comparison. The model does not derive which success counts pass it; with 100 runs the source stops at 99 successes, which exact reals would not.
- CaEvolution.Evolution.Mutate: the `double` draw `rand() / RAND_MAX` is a given real. Floating-point rounding is not modelled.
- CaEvolution.Evolution.Run: requires at least one fitness run, and at least 5 individuals when there is a generation to run. Otherwise the source divides by zero, takes `rand() % 0`, or reads `elite_indices[0]` from an empty buffer.
- CaEvolution.Evolution.Run: when no table ever improved the record, the source's `best_rules` is uninitialised. The model says nothing about its contents then.
- CaSimulator.Simulator.RunSimulation: requires 0/1 cells and a 0/1 rule table. With other values the source's code could index outside the 128-entry table.
- CaSimulator.Simulator.RunSimulationRetTransitions: requires at least one row, because the source writes row 0 unconditionally.
- CaEvolution.Evolution.GetEliteIndices: the priority queue is modelled as its top pair of the `std::pair` order, the only element ever read. Elements that are never read are not modelled.
- CaEvolution.Evolution.constructor: `cells * 2` and the counters are unbounded integers. A 32-bit overflow for huge cell counts is not modelled.
