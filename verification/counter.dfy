/**
 * The table of saturating counters (`struct Counter`): a fixed-size table of
 * integers that `increment` and `decrement` keep inside [0, max_count].
 */
module Counters {
  import opened Bits

  /**
   * `counts` is the allocated array, `tableSize` the size argument the table
   * was created with, `maxCount` the saturation bound.
   */
  datatype Counter = Counter(counts: seq<int>, tableSize: int, maxCount: int)

  /** Every entry lies in [0, maxCount]. */
  ghost predicate Valid(c: Counter)
  {
    forall i :: 0 <= i < |c.counts| ==> 0 <= c.counts[i] <= c.maxCount
  }

  /**
   * `counter_init` with the size argument read as a number of entries, as
   * every caller uses it: a zeroed table of `tableSize` entries.
   */
  function CounterInit(tableSize: nat, maxCount: nat): (c: Counter)
    ensures |c.counts| == tableSize
    ensures forall i :: 0 <= i < |c.counts| ==> c.counts[i] == 0
    ensures c.maxCount == maxCount
    ensures Valid(c)
  {
    Counter(seq(tableSize, _ => 0), tableSize, maxCount)
  }

  /**
   * `counter_init` as written: it applies `getTableSize` to its argument, so
   * a table asked for with `tableSize` entries gets 2^tableSize of them.
   * The shift `1 << tableSize` is only defined for `tableSize < 31`.
   */
  function CounterInitAsWritten(tableSize: nat, maxCount: nat): (c: Counter)
    requires tableSize < 31
    ensures |c.counts| == Pow2(tableSize)
    ensures forall i :: 0 <= i < |c.counts| ==> c.counts[i] == 0
    ensures c.maxCount == maxCount
  {
    Counter(seq(TableSize(tableSize), _ => 0), tableSize, maxCount)
  }

  /** `increment`: add one to the entry at `index`, saturating at `maxCount`. */
  function Increment(c: Counter, index: nat): (r: Counter)
    requires index < |c.counts|
    ensures |r.counts| == |c.counts| && r.maxCount == c.maxCount && r.tableSize == c.tableSize
    ensures forall j :: 0 <= j < |c.counts| && j != index ==> r.counts[j] == c.counts[j]
    ensures r.counts[index] <= c.maxCount
    ensures c.counts[index] < c.maxCount ==> r.counts[index] == c.counts[index] + 1
    ensures c.counts[index] >= c.maxCount ==> r.counts[index] == c.maxCount
    ensures Valid(c) ==> Valid(r)
  {
    var v := c.counts[index] + 1;
    c.(counts := c.counts[index := if v > c.maxCount then c.maxCount else v])
  }

  /**
   * `decrement`: subtract one from the entry at `index`; a result of -1
   * (reached only from 0) is put back to 0.
   */
  function Decrement(c: Counter, index: nat): (r: Counter)
    requires index < |c.counts|
    ensures |r.counts| == |c.counts| && r.maxCount == c.maxCount && r.tableSize == c.tableSize
    ensures forall j :: 0 <= j < |c.counts| && j != index ==> r.counts[j] == c.counts[j]
    ensures c.counts[index] == 0 ==> r.counts[index] == 0
    ensures c.counts[index] != 0 ==> r.counts[index] == c.counts[index] - 1
    ensures c.counts[index] >= 0 ==> r.counts[index] >= 0
    ensures Valid(c) ==> Valid(r)
  {
    var v := c.counts[index] - 1;
    c.(counts := c.counts[index := if v == -1 then 0 else v])
  }

  /** `n` successive increments of the entry at `index`. */
  function IncrementTimes(c: Counter, index: nat, n: nat): (r: Counter)
    requires index < |c.counts|
    ensures |r.counts| == |c.counts|
    decreases n
  {
    if n == 0 then c else Increment(IncrementTimes(c, index, n - 1), index)
  }

  /** `n` successive decrements of the entry at `index`. */
  function DecrementTimes(c: Counter, index: nat, n: nat): (r: Counter)
    requires index < |c.counts|
    ensures |r.counts| == |c.counts|
    decreases n
  {
    if n == 0 then c else Decrement(DecrementTimes(c, index, n - 1), index)
  }

  function Min(a: int, b: int): int
  {
    if a <= b then a else b
  }

  function Max(a: int, b: int): int
  {
    if a >= b then a else b
  }

  /**
   * From a value `v` in [0, maxCount], `n` increments reach
   * min(v + n, maxCount) and leave the rest of the table alone.
   */
  lemma {:induction false} IncrementSaturates(c: Counter, index: nat, n: nat)
    requires index < |c.counts|
    requires 0 <= c.counts[index] <= c.maxCount
    ensures IncrementTimes(c, index, n).counts[index] == Min(c.counts[index] + n, c.maxCount)
    ensures forall j :: 0 <= j < |c.counts| && j != index ==> IncrementTimes(c, index, n).counts[j] == c.counts[j]
    ensures IncrementTimes(c, index, n).maxCount == c.maxCount
  {
    if n > 0 {
      IncrementSaturates(c, index, n - 1);
    }
  }

  /**
   * From a value `v >= 0`, `n` decrements reach max(v - n, 0): the entry
   * never goes negative, and the rest of the table is left alone.
   */
  lemma {:induction false} DecrementFloors(c: Counter, index: nat, n: nat)
    requires index < |c.counts|
    requires 0 <= c.counts[index]
    ensures DecrementTimes(c, index, n).counts[index] == Max(c.counts[index] - n, 0)
    ensures forall j :: 0 <= j < |c.counts| && j != index ==> DecrementTimes(c, index, n).counts[j] == c.counts[j]
    ensures DecrementTimes(c, index, n).maxCount == c.maxCount
  {
    if n > 0 {
      DecrementFloors(c, index, n - 1);
    }
  }

  /** A decrement undoes an increment that did not saturate. */
  lemma DecrementUndoesIncrement(c: Counter, index: nat)
    requires index < |c.counts|
    requires 0 <= c.counts[index] < c.maxCount
    ensures Decrement(Increment(c, index), index) == c
  {
    assert Decrement(Increment(c, index), index).counts == c.counts;
  }

  /** An increment undoes a decrement that did not stop at zero. */
  lemma IncrementUndoesDecrement(c: Counter, index: nat)
    requires index < |c.counts|
    requires 0 < c.counts[index] <= c.maxCount
    ensures Increment(Decrement(c, index), index) == c
  {
    assert Increment(Decrement(c, index), index).counts == c.counts;
  }

  /**
   * The sequence of `test_Counter` on a table of 2^10 entries with maximum 3:
   * three increments give 3, a fourth still gives 3, four decrements give 0.
   */
  lemma CounterScenario()
    ensures var c := CounterInit(TableSize(10), 3);
            && IncrementTimes(c, 0, 3).counts[0] == 3
            && IncrementTimes(c, 0, 4).counts[0] == 3
            && DecrementTimes(IncrementTimes(c, 0, 4), 0, 4).counts[0] == 0
  {
    var c := CounterInit(TableSize(10), 3);
    IncrementSaturates(c, 0, 3);
    IncrementSaturates(c, 0, 4);
    DecrementFloors(IncrementTimes(c, 0, 4), 0, 4);
  }

  /**
   * The double size computation: for every width the as-written
   * initialisation can evaluate, the table has 2^size entries instead of
   * `size`, e.g. 16 entries where 4 were asked for.
   */
  lemma {:induction false} AsWrittenSizeDiffers(tableSize: nat)
    requires tableSize < 31
    ensures |CounterInitAsWritten(tableSize, 3).counts| != tableSize
    ensures |CounterInitAsWritten(4, 3).counts| == 16
  {
    Pow2Exceeds(tableSize);
    assert Pow2(4) == 16;
  }

  lemma {:induction false} Pow2Exceeds(n: nat)
    ensures Pow2(n) > n
  {
    if n > 0 {
      Pow2Exceeds(n - 1);
    }
  }
}
