/**
 * The bimodal predictor (`struct BimodalCounter`): a counter table with
 * maximum 3, i.e. a table of 2-bit saturating counters, read through the
 * threshold rule "taken when the counter is at least 2".
 */
module Bimodal {
  import opened Bits
  import opened Counters

  /** The saturation bound of every bimodal table. */
  const MAX_COUNT: int := 3

  datatype BimodalCounter = BimodalCounter(counter: Counter)

  /** A table of 2-bit counters, each in [0, 3]. */
  ghost predicate Valid(bc: BimodalCounter)
  {
    bc.counter.maxCount == MAX_COUNT && Counters.Valid(bc.counter)
  }

  /** `bimodalCounter_init`: a zeroed table of `tableSize` 2-bit counters. */
  function BimodalInit(tableSize: nat): (bc: BimodalCounter)
    ensures |bc.counter.counts| == tableSize
    ensures forall i :: 0 <= i < tableSize ==> bc.counter.counts[i] == 0
    ensures Valid(bc)
  {
    BimodalCounter(CounterInit(tableSize, MAX_COUNT))
  }

  /**
   * `getOutcome`: predict taken when the counter at `index` is at least 2.
   * On a valid table this is the prediction of the four-state machine below:
   * taken exactly for the counter values 2 and 3.
   */
  function GetOutcome(bc: BimodalCounter, index: nat): (r: bool)
    requires index < |bc.counter.counts|
    ensures Valid(bc) ==> (r <==> PredictsTaken(StateOf(bc.counter.counts[index])))
  {
    bc.counter.counts[index] >= 2
  }

  /**
   * Training one counter with a resolved outcome (`uint8_t`): 0 decrements,
   * any other value increments.
   */
  function Train(bc: BimodalCounter, index: nat, outcome: U8): (r: BimodalCounter)
    requires index < |bc.counter.counts|
    ensures |r.counter.counts| == |bc.counter.counts|
    ensures r.counter.maxCount == bc.counter.maxCount
    ensures forall j :: 0 <= j < |bc.counter.counts| && j != index ==> r.counter.counts[j] == bc.counter.counts[j]
    ensures Valid(bc) ==> Valid(r)
    ensures Valid(bc) ==> StateOf(r.counter.counts[index]) == Next(StateOf(bc.counter.counts[index]), outcome != 0)
  {
    if outcome == 0 then BimodalCounter(Decrement(bc.counter, index))
    else BimodalCounter(Increment(bc.counter, index))
  }

  // ---------------------------------------------------------------------
  // Reference: the textbook four-state 2-bit predictor
  // ---------------------------------------------------------------------

  datatype State = StronglyNotTaken | WeaklyNotTaken | WeaklyTaken | StronglyTaken

  /** The state a counter value in [0, 3] stands for. */
  function StateOf(v: int): State
    requires 0 <= v <= 3
  {
    if v == 0 then StronglyNotTaken
    else if v == 1 then WeaklyNotTaken
    else if v == 2 then WeaklyTaken
    else StronglyTaken
  }

  /** The prediction each state makes. */
  predicate PredictsTaken(s: State)
  {
    s == WeaklyTaken || s == StronglyTaken
  }

  /** The state transition on a resolved outcome: one step toward it, saturating. */
  function Next(s: State, taken: bool): State
  {
    match s
    case StronglyNotTaken => if taken then WeaklyNotTaken else StronglyNotTaken
    case WeaklyNotTaken => if taken then WeaklyTaken else StronglyNotTaken
    case WeaklyTaken => if taken then StronglyTaken else WeaklyNotTaken
    case StronglyTaken => if taken then StronglyTaken else WeaklyTaken
  }

  /**
   * Hysteresis: training with the outcome a counter already predicts keeps
   * that prediction, and two trainings with the same outcome make any
   * counter predict it.
   */
  lemma {:induction false} TrainTowardOutcome(bc: BimodalCounter, index: nat, outcome: U8)
    requires Valid(bc) && index < |bc.counter.counts|
    ensures GetOutcome(bc, index) == (outcome != 0) ==>
              GetOutcome(Train(bc, index, outcome), index) == (outcome != 0)
    ensures GetOutcome(Train(Train(bc, index, outcome), index, outcome), index) == (outcome != 0)
  {
  }

  /** From the strong states one contrary outcome does not flip the prediction. */
  lemma StrongStateResists(bc: BimodalCounter, index: nat, outcome: U8)
    requires Valid(bc) && index < |bc.counter.counts|
    requires StateOf(bc.counter.counts[index]) == StronglyTaken
             || StateOf(bc.counter.counts[index]) == StronglyNotTaken
    ensures GetOutcome(Train(bc, index, outcome), index) == GetOutcome(bc, index)
  {
  }
}
