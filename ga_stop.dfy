/**
 * The stopping rule of BugFieldGeneticAlgorithm.process. Each iteration
 * generates children, selects, and then looks at two step counts of the new
 * population: the best one (slot 0) and the one at filterStopIndex. The
 * loop is driven here by those observations, one per iteration.
 */
module StopRule {
  import opened Wrappers
  import opened JavaInt
  import Genetic

  /** filterStopSize = (populationSize * filterStopPercentage - 1) / 100 + 1, in Java int division. */
  function FilterStopSize(populationSize: int, percentage: int): int
  {
    Div(populationSize * percentage - 1, 100) + 1
  }

  /** filterStopIndex = populationSize - filterStopSize - 1. */
  function FilterStopIndex(populationSize: int, percentage: int): int
  {
    populationSize - FilterStopSize(populationSize, percentage) - 1
  }

  /** For a positive product, filterStopSize is the product divided by 100 and rounded up. */
  lemma FilterStopSizeIsCeiling(populationSize: int, percentage: int)
    requires populationSize * percentage >= 1
    ensures var s := FilterStopSize(populationSize, percentage);
      (s - 1) * 100 < populationSize * percentage <= s * 100
  {
    var x := populationSize * percentage - 1;
    assert Div(x, 100) == x / 100 by {
      DivTruncates(x, 100);
    }
  }

  /**
   * With a zero product the quotient (-1) / 100 truncates to 0, so
   * filterStopSize is 1 (a floored or Euclidean quotient would give 0).
   */
  lemma FilterStopSizeAtZero(populationSize: int, percentage: int)
    requires populationSize * percentage == 0
    ensures FilterStopSize(populationSize, percentage) == 1
  {
    assert Div(-1, 100) == 0;
  }

  /** The constants of the program: 20 fields and 10 percent give slot 17. */
  lemma FilterStopIndexOfConstants()
    ensures FilterStopSize(20, 10) == 2 && FilterStopIndex(20, 10) == 17
  {
    FilterStopSizeIsCeiling(20, 10);
  }

  /**
   * fields[filterStopIndex] is a population slot exactly when the rounded-up
   * share leaves at least one field behind it.
   */
  lemma FilterStopIndexInRange(populationSize: int, percentage: int)
    requires populationSize * percentage >= 1
    ensures 0 <= FilterStopIndex(populationSize, percentage) < populationSize <==>
      populationSize * percentage <= 100 * (populationSize - 1)
  {
    FilterStopSizeIsCeiling(populationSize, percentage);
  }

  /** A single field leaves none behind: at any percentage from 1 to 100 the index is -1. */
  lemma SingleFieldIndex(percentage: int)
    requires 1 <= percentage <= 100
    ensures FilterStopIndex(1, percentage) == -1
  {
    FilterStopSizeIsCeiling(1, percentage);
  }

  /** A share of 100 percent leaves none behind either: the index is -1 for every population. */
  lemma FullShareIndex(populationSize: int)
    requires populationSize >= 1
    ensures FilterStopIndex(populationSize, 100) == -1
  {
    FilterStopSizeIsCeiling(populationSize, 100);
  }

  // ---------------------------------------------------------------------
  // The loop.

  /** What iteration k sees after selection: fields[0].steps and fields[filterStopIndex].steps. */
  datatype Observation = Observation(bestSteps: int, filterSteps: int)

  datatype StopLimits = StopLimits(nonChangeStopIterations: int, filterStopIterations: int, filterStopDelta: int)

  /** The loop variables: changed, lastUpdateIterationDelta and fields[0].steps. */
  datatype LoopState = LoopState(changed: bool, delta: int, bestSteps: int)

  /** Before iteration 0: changed when the sorted input beats the start field; the delta starts at 1. */
  function Initial(startFieldSteps: int, firstSteps: int): LoopState
  {
    LoopState(startFieldSteps < firstSteps, 1, firstSteps)
  }

  /** An iteration's update: an improvement sets changed and resets the delta. */
  function Observe(s: LoopState, o: Observation): LoopState
  {
    var updatedBest := s.bestSteps < o.bestSteps;
    LoopState(s.changed || updatedBest, if updatedBest then 0 else s.delta, o.bestSteps)
  }

  /** The break test of an iteration, on the state after its update. */
  predicate Breaks(s: LoopState, o: Observation, limits: StopLimits)
  {
    s.changed &&
    (s.delta > limits.nonChangeStopIterations ||
     (s.delta > limits.filterStopIterations && o.bestSteps - o.filterSteps <= limits.filterStopDelta))
  }

  /**
   * The test reaches line 137's read of fields[filterStopIndex]: changed,
   * not past nonChangeStopIterations, past filterStopIterations.
   */
  predicate ReachesFilter(s: LoopState, limits: StopLimits)
  {
    s.changed && !(s.delta > limits.nonChangeStopIterations) && s.delta > limits.filterStopIterations
  }

  /** That read falls outside the work array of `length` slots and throws. */
  predicate Crashes(s: LoopState, limits: StopLimits, index: int, length: int)
  {
    ReachesFilter(s, limits) && !(0 <= index < length)
  }

  /** How the loop ends: a break at an iteration, no break yet, or the exception of line 137. */
  datatype Stop = Broke(iteration: nat) | Running | OutOfBounds(iteration: nat)

  /** The state at the top of iteration k. */
  function StateBefore(init: LoopState, obs: seq<Observation>, k: nat): LoopState
    requires k <= |obs|
  {
    if k == 0 then init
    else
      var s := Observe(StateBefore(init, obs, k - 1), obs[k - 1]);
      LoopState(s.changed, s.delta + 1, s.bestSteps)
  }

  /** The state iteration k tests. */
  function StateAt(init: LoopState, obs: seq<Observation>, k: nat): LoopState
    requires k < |obs|
  {
    Observe(StateBefore(init, obs, k), obs[k])
  }

  /** The first k iterations neither throw nor break. */
  predicate Quiet(init: LoopState, obs: seq<Observation>, limits: StopLimits, index: int, length: int, k: nat)
    requires k <= |obs|
  {
    forall t :: 0 <= t < k ==>
      !Crashes(StateAt(init, obs, t), limits, index, length) && !Breaks(StateAt(init, obs, t), obs[t], limits)
  }

  /**
   * The loop of process over the given observations, in a work array of
   * Genetic.SlotCount(populationSize) slots: the iteration it breaks at,
   * the iteration whose read of fields[filterStopIndex] throws, or Running
   * when neither has happened by the last one.
   */
  method ProcessStop(populationSize: nat, percentage: int, startFieldSteps: int, firstSteps: int,
                     obs: seq<Observation>, limits: StopLimits)
    returns (stop: Stop)
    ensures var init := Initial(startFieldSteps, firstSteps);
      var index, length := FilterStopIndex(populationSize, percentage), Genetic.SlotCount(populationSize);
      match stop
      case Broke(k) =>
        k < |obs| && Quiet(init, obs, limits, index, length, k) &&
        !Crashes(StateAt(init, obs, k), limits, index, length) && Breaks(StateAt(init, obs, k), obs[k], limits)
      case OutOfBounds(k) =>
        k < |obs| && Quiet(init, obs, limits, index, length, k) && Crashes(StateAt(init, obs, k), limits, index, length)
      case Running =>
        Quiet(init, obs, limits, index, length, |obs|)
  {
    var filterStopIndex := FilterStopIndex(populationSize, percentage);
    var length := Genetic.SlotCount(populationSize);
    stop := IterateUntilStop(filterStopIndex, length, startFieldSteps, firstSteps, obs, limits);
  }

  /** The loop of process, reading fields[filterStopIndex] in a work array of `length` slots. */
  method IterateUntilStop(filterStopIndex: int, length: int, startFieldSteps: int, firstSteps: int,
                          obs: seq<Observation>, limits: StopLimits)
    returns (stop: Stop)
    ensures var init := Initial(startFieldSteps, firstSteps);
      match stop
      case Broke(k) =>
        k < |obs| && Quiet(init, obs, limits, filterStopIndex, length, k) &&
        !Crashes(StateAt(init, obs, k), limits, filterStopIndex, length) && Breaks(StateAt(init, obs, k), obs[k], limits)
      case OutOfBounds(k) =>
        k < |obs| && Quiet(init, obs, limits, filterStopIndex, length, k) &&
        Crashes(StateAt(init, obs, k), limits, filterStopIndex, length)
      case Running =>
        Quiet(init, obs, limits, filterStopIndex, length, |obs|)
  {
    ghost var init := Initial(startFieldSteps, firstSteps);
    var changed := startFieldSteps < firstSteps;
    var iteration := 0;
    var lastUpdateIterationDelta := 1;
    while iteration < |obs|
      invariant 0 <= iteration <= |obs|
      invariant StateBefore(init, obs, iteration) == LoopState(changed, lastUpdateIterationDelta, if iteration == 0 then firstSteps else obs[iteration - 1].bestSteps)
      invariant Quiet(init, obs, limits, filterStopIndex, length, iteration)
    {
      var bestSteps := if iteration == 0 then firstSteps else obs[iteration - 1].bestSteps;
      var nextBestSteps := obs[iteration].bestSteps;
      var updatedBest := bestSteps < nextBestSteps;
      changed := changed || updatedBest;
      if updatedBest || iteration % 10 == 0 {
        if updatedBest {
          lastUpdateIterationDelta := 0;
        }
      }
      ghost var state := StateAt(init, obs, iteration);
      assert state == LoopState(changed, lastUpdateIterationDelta, nextBestSteps);
      if changed {
        if lastUpdateIterationDelta > limits.nonChangeStopIterations {
          return Broke(iteration);
        } else if lastUpdateIterationDelta > limits.filterStopIterations {
          if !(0 <= filterStopIndex < length) {
            return OutOfBounds(iteration);
          }
          var filterDelta := nextBestSteps - obs[iteration].filterSteps;
          if filterDelta <= limits.filterStopDelta {
            return Broke(iteration);
          }
        }
      }
      QuietStep(init, obs, limits, filterStopIndex, length, iteration);
      iteration := iteration + 1;
      lastUpdateIterationDelta := lastUpdateIterationDelta + 1;
    }
    return Running;
  }

  /** An iteration that neither throws nor breaks extends the quiet prefix. */
  lemma QuietStep(init: LoopState, obs: seq<Observation>, limits: StopLimits, index: int, length: int, k: nat)
    requires k < |obs| && Quiet(init, obs, limits, index, length, k)
    requires !Crashes(StateAt(init, obs, k), limits, index, length) && !Breaks(StateAt(init, obs, k), obs[k], limits)
    ensures Quiet(init, obs, limits, index, length, k + 1)
  {
  }

  /** With the program's 20 fields and 10 percent, the read at line 137 never throws. */
  lemma ConstantsNeverCrash(s: LoopState, limits: StopLimits)
    ensures !Crashes(s, limits, FilterStopIndex(20, 10), Genetic.SlotCount(20))
  {
    FilterStopIndexOfConstants();
  }

  /** With a single field, the first iteration that reaches the filter test throws. */
  lemma SingleFieldCrashes(s: LoopState, limits: StopLimits, percentage: int)
    requires 1 <= percentage <= 100 && ReachesFilter(s, limits)
    ensures Crashes(s, limits, FilterStopIndex(1, percentage), Genetic.SlotCount(1))
  {
    SingleFieldIndex(percentage);
  }

  // ---------------------------------------------------------------------
  // What the loop variables mean.

  /** The best step count before iteration k: the sorted input's, then the previous iteration's. */
  function PreviousBest(firstSteps: int, obs: seq<Observation>, k: nat): int
    requires k < |obs|
  {
    if k == 0 then firstSteps else obs[k - 1].bestSteps
  }

  predicate Improves(firstSteps: int, obs: seq<Observation>, k: nat)
    requires k < |obs|
  {
    PreviousBest(firstSteps, obs, k) < obs[k].bestSteps
  }

  /**
   * changed, as tested in iteration k, holds exactly when the sorted input
   * beat the start field or some iteration up to k improved the best
   * field: no break can happen before either.
   */
  lemma {:induction false} ChangedMeans(startFieldSteps: int, firstSteps: int, obs: seq<Observation>, k: nat)
    requires k < |obs|
    ensures StateAt(Initial(startFieldSteps, firstSteps), obs, k).changed <==>
      startFieldSteps < firstSteps || exists t :: 0 <= t <= k && Improves(firstSteps, obs, t)
  {
    var init := Initial(startFieldSteps, firstSteps);
    BestBefore(init, firstSteps, obs, k);
    assert StateAt(init, obs, k).changed == (StateBefore(init, obs, k).changed || Improves(firstSteps, obs, k));
    if Improves(firstSteps, obs, k) {
      assert exists t :: 0 <= t <= k && Improves(firstSteps, obs, t);
    }
    if k > 0 {
      ChangedMeans(startFieldSteps, firstSteps, obs, k - 1);
      assert StateAt(init, obs, k).changed == (StateAt(init, obs, k - 1).changed || Improves(firstSteps, obs, k));
      if t :| 0 <= t <= k && Improves(firstSteps, obs, t) {
        if t < k {
          assert exists t' :: 0 <= t' <= k - 1 && Improves(firstSteps, obs, t');
        }
      }
    }
  }

  /** fields[0].steps at the top of iteration k is the previous best. */
  lemma {:induction false} BestBefore(init: LoopState, firstSteps: int, obs: seq<Observation>, k: nat)
    requires k < |obs| && init.bestSteps == firstSteps
    ensures StateBefore(init, obs, k).bestSteps == PreviousBest(firstSteps, obs, k)
  {
  }

  /**
   * lastUpdateIterationDelta, as tested in iteration k, counts the
   * iterations since the last improvement (0 in an improving iteration),
   * or k + 1 when no iteration has improved yet.
   */
  lemma {:induction false} DeltaCounts(startFieldSteps: int, firstSteps: int, obs: seq<Observation>, k: nat, last: int)
    requires k < |obs| && -1 <= last <= k
    requires last >= 0 ==> Improves(firstSteps, obs, last)
    requires forall t :: last < t <= k ==> !Improves(firstSteps, obs, t)
    ensures StateAt(Initial(startFieldSteps, firstSteps), obs, k).delta == if last >= 0 then k - last else k + 1
  {
    var init := Initial(startFieldSteps, firstSteps);
    BestBefore(init, firstSteps, obs, k);
    assert StateAt(init, obs, k).delta == if Improves(firstSteps, obs, k) then 0 else StateBefore(init, obs, k).delta;
    if k > 0 && last < k {
      DeltaCounts(startFieldSteps, firstSteps, obs, k - 1, last);
      assert !Improves(firstSteps, obs, k);
      assert StateAt(init, obs, k).delta == StateAt(init, obs, k - 1).delta + 1;
    }
  }

  /**
   * So a break needs an improvement (or a better sorted input) and then
   * more than filterStopIterations quiet iterations, whichever test fires.
   */
  lemma BreakNeedsQuiet(startFieldSteps: int, firstSteps: int, obs: seq<Observation>, limits: StopLimits, k: nat)
    requires k < |obs| && 0 <= limits.filterStopIterations <= limits.nonChangeStopIterations
    requires Breaks(StateAt(Initial(startFieldSteps, firstSteps), obs, k), obs[k], limits)
    ensures startFieldSteps < firstSteps || exists t :: 0 <= t <= k && Improves(firstSteps, obs, t)
    ensures forall t :: k - limits.filterStopIterations <= t <= k && 0 <= t ==> !Improves(firstSteps, obs, t)
  {
    ChangedMeans(startFieldSteps, firstSteps, obs, k);
    forall t | k - limits.filterStopIterations <= t <= k && 0 <= t
      ensures !Improves(firstSteps, obs, t)
    {
      if Improves(firstSteps, obs, t) {
        var last := LastImprovement(firstSteps, obs, k, t);
        DeltaCounts(startFieldSteps, firstSteps, obs, k, last);
      }
    }
  }

  /** The last improving iteration up to k, given that t improves. */
  lemma {:induction false} LastImprovement(firstSteps: int, obs: seq<Observation>, k: nat, t: nat) returns (last: int)
    requires t <= k < |obs| && Improves(firstSteps, obs, t)
    ensures t <= last <= k && Improves(firstSteps, obs, last)
    ensures forall u :: last < u <= k ==> !Improves(firstSteps, obs, u)
    decreases k - t
  {
    if Improves(firstSteps, obs, k) {
      last := k;
    } else {
      last := LastImprovement(firstSteps, obs, k - 1, t);
    }
  }
}
