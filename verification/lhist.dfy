/**
 * The local history structure (`struct Lhist`): a per-address table of
 * history values and a bimodal table indexed by them. The source only
 * allocates and zeroes it; no prediction or update uses it.
 */
module LocalHistory {
  import opened Bits
  import opened Counters
  import opened Bimodal

  datatype Lhist = Lhist(hist: seq<int>, histTableSize: int, bc: BimodalCounter)

  /**
   * `lhist_init`: 2^pcIndexBits zeroed history entries and a zeroed bimodal
   * table of 2^lhistoryBits counters (the table size argument read as a
   * number of entries, as in `GshareInit`).
   */
  function LhistInit(pcIndexBits: nat, lhistoryBits: nat): (lh: Lhist)
    requires pcIndexBits < 31 && lhistoryBits < 31
    ensures |lh.hist| == lh.histTableSize == Pow2(pcIndexBits)
    ensures forall i :: 0 <= i < |lh.hist| ==> lh.hist[i] == 0
    ensures |lh.bc.counter.counts| == Pow2(lhistoryBits)
    ensures forall i :: 0 <= i < |lh.bc.counter.counts| ==> lh.bc.counter.counts[i] == 0
    ensures Bimodal.Valid(lh.bc)
  {
    var historyTableSize := TableSize(pcIndexBits);
    var counterTableSize := TableSize(lhistoryBits);
    Lhist(seq(historyTableSize, _ => 0), historyTableSize, BimodalInit(counterTableSize))
  }
}
