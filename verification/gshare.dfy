/**
 * The gshare predictor (`struct Gshare`): a global history shift register
 * and a bimodal table indexed by the low PC bits XOR the history.
 *
 * The source reads the index width from the global `ghistoryBits`; here it
 * is the explicit parameter `bits`, tied to the state by `Valid(g, bits)`,
 * which holds from `GshareInit(bits)` on.
 */
module GsharePredictor {
  import opened Bits
  import opened Counters
  import opened Bimodal

  datatype Gshare = Gshare(ghistory: U32, ghistoryMask: U32, bc: BimodalCounter)

  /**
   * The state of a gshare predictor set up for `bits` history bits: the mask
   * is 2^bits - 1, the history fits under it, the table has at least 2^bits
   * 2-bit counters.
   */
  ghost predicate Valid(g: Gshare, bits: nat)
  {
    && bits < 31
    && g.ghistoryMask == Pow2(bits) - 1
    && g.ghistory < Pow2(bits)
    && |g.bc.counter.counts| >= Pow2(bits)
    && Bimodal.Valid(g.bc)
  }

  /** The counter table of a gshare predictor. */
  function Counts(g: Gshare): seq<int>
  {
    g.bc.counter.counts
  }

  /** `getLowerNBits(~0, bits)` is 2^bits - 1. */
  lemma LowMaskOfAllOnes(bits: nat)
    requires bits < 31 || bits == 32
    ensures LowerNBits(TWO32 - 1, bits) == Pow2(bits) - 1
  {
    AllOnesLowBits(bits);
    MaskedWord(TWO32 - 1, bits);
  }

  lemma AllOnesLowBits(bits: nat)
    requires bits <= 32
    ensures (TWO32 - 1) % Pow2(bits) == Pow2(bits) - 1
  {
    var p := Pow2(bits);
    var q := Pow2(32 - bits);
    assert TWO32 == p * q by {
      Pow2Add(bits, 32 - bits);
      Pow2Is32();
    }
    AllOnesMod(p, q);
  }

  /**
   * `gshare_init`: history 0, mask `getLowerNBits(~0, bits)`, and a zeroed
   * table of `getTableSize(bits)` counters (the table size argument read as
   * a number of entries; see `GshareInitAsWritten`).
   */
  function GshareInit(bits: nat): (g: Gshare)
    requires bits < 31
    ensures g.ghistory == 0
    ensures g.ghistoryMask == Pow2(bits) - 1
    ensures |Counts(g)| == Pow2(bits)
    ensures forall i :: 0 <= i < |Counts(g)| ==> Counts(g)[i] == 0
    ensures Valid(g, bits)
  {
    LowMaskOfAllOnes(bits);
    Gshare(0, LowerNBits(TWO32 - 1, bits), BimodalInit(TableSize(bits)))
  }

  /**
   * `gshare_init` as written: `getTableSize(bits)` is passed to
   * `bimodalCounter_init`, whose `counter_init` applies `getTableSize` again.
   * The second shift is defined only while 2^bits < 31, i.e. bits <= 4.
   * The table is larger than needed, so every index stays in bounds and the
   * state is still valid for `bits`.
   */
  function GshareInitAsWritten(bits: nat): (g: Gshare)
    requires bits < 31 && TableSize(bits) < 31
    ensures g.ghistory == 0
    ensures g.ghistoryMask == Pow2(bits) - 1
    ensures |Counts(g)| == Pow2(Pow2(bits))
    ensures Valid(g, bits)
  {
    LowMaskOfAllOnes(bits);
    Pow2Exceeds(Pow2(bits));
    Gshare(0, LowerNBits(TWO32 - 1, bits),
           BimodalCounter(CounterInitAsWritten(TableSize(bits), MAX_COUNT)))
  }

  /**
   * The double size computation: the as-written table never has the 2^bits
   * entries `getTableSize(bits)` already computed (16 instead of 4 for two
   * history bits), and
   * from five history bits on, including the ten of the gshare self-test,
   * the second shift count reaches 32, past the width of a C `int`.
   */
  lemma DoubleTableSize(bits: nat)
    ensures bits < 31 && TableSize(bits) < 31 ==> |Counts(GshareInitAsWritten(bits))| != Pow2(bits)
    ensures |Counts(GshareInitAsWritten(2))| == 16
    ensures 5 <= bits < 31 ==> TableSize(bits) >= 32
  {
    if bits < 31 && TableSize(bits) < 31 {
      Pow2Exceeds(Pow2(bits));
    }
    if 5 <= bits < 31 {
      Pow2Monotone(5, bits);
    }
    assert Pow2(2) == 4 && Pow2(4) == 16;
  }

  // ---------------------------------------------------------------------
  // The global history register
  // ---------------------------------------------------------------------

  /**
   * One step of the history register: `(h << 1) | b` on a `uint32_t`, masked
   * with 2^bits - 1, is the low `bits` bits of 2h + b.
   */
  lemma HistoryStep(h: U32, taken: bool, bits: nat)
    requires bits <= 32
    ensures ShiftLeft32(h, 1) % 2 == 0
    ensures BitAnd(if taken then BitOr(ShiftLeft32(h, 1), 1) else ShiftLeft32(h, 1), Pow2(bits) - 1)
            == LowBits(2 * h + Bit(taken), bits)
  {
    InsertedWord(h, taken);
    AndLowMask(if taken then BitOr(ShiftLeft32(h, 1), 1) else ShiftLeft32(h, 1), bits);
    ModOfWord(2 * h + Bit(taken), bits);
    LowBitsIsMod(2 * h + Bit(taken), bits);
  }

  /** Shifting left and setting bit 0 to `taken` gives (2h + taken) mod 2^32. */
  lemma InsertedWord(h: U32, taken: bool)
    ensures ShiftLeft32(h, 1) % 2 == 0
    ensures (if taken then BitOr(ShiftLeft32(h, 1), 1) else ShiftLeft32(h, 1)) == (2 * h + Bit(taken)) % TWO32
  {
    var s := ShiftLeft32(h, 1);
    assert s == (2 * h) % TWO32 by {
      assert Pow2(1) == 2;
    }
    ShiftedWord(h, Bit(taken), s);
    if taken {
      OrOneOfEven(s);
    }
  }

  /** Reducing modulo 2^32 first does not change the value modulo 2^bits. */
  lemma ModOfWord(x: nat, bits: nat)
    requires bits <= 32
    ensures (x % TWO32) % Pow2(bits) == x % Pow2(bits)
  {
    assert TWO32 == Pow2(bits) * Pow2(32 - bits) by {
      Pow2Add(bits, 32 - bits);
      Pow2Is32();
    }
    ModOfMultiple(x, Pow2(bits), Pow2(32 - bits));
  }

  /** (2h) mod 2^32 is even, and adding one bit to it is (2h + b) mod 2^32. */
  lemma ShiftedWord(h: nat, b: nat, s: nat)
    requires b <= 1 && s == (2 * h) % TWO32
    ensures s % 2 == 0
    ensures s + b == (2 * h + b) % TWO32
  {
    var k := (2 * h) / TWO32;
    assert 2 * h == TWO32 * k + s;
    assert s == 2 * (h - 0x8000_0000 * k);
    ModUnique(s, 2, h - 0x8000_0000 * k, 0);
    ModUnique(2 * h + b, TWO32, k, s + b);
  }

  /**
   * `gshare_add_history`: shift the history left by one, insert `taken` as
   * the new lowest bit and mask. Whatever the mask, the result fits under it,
   * and with the mask 2^bits - 1 the register holds the low `bits` bits of
   * 2h + taken.
   */
  function AddHistory(g: Gshare, taken: bool): (r: Gshare)
    ensures r.ghistoryMask == g.ghistoryMask && r.bc == g.bc
    ensures r.ghistory <= g.ghistoryMask
    ensures forall bits: nat :: bits <= 32 && g.ghistoryMask == Pow2(bits) - 1 ==>
              r.ghistory == LowBits(2 * g.ghistory + Bit(taken), bits)
  {
    var shifted := ShiftLeft32(g.ghistory, 1);
    InsertedWord(g.ghistory, taken);
    var inserted := if taken then BitOr(shifted, 1) else shifted;
    AndBound(inserted, g.ghistoryMask);
    HistoryStepAll(g.ghistory, taken);
    g.(ghistory := BitAnd(inserted, g.ghistoryMask))
  }

  lemma HistoryStepAll(h: U32, taken: bool)
    ensures forall bits: nat :: bits <= 32 ==>
              BitAnd(if taken then BitOr(ShiftLeft32(h, 1), 1) else ShiftLeft32(h, 1), Pow2(bits) - 1)
              == LowBits(2 * h + Bit(taken), bits)
  {
    forall bits: nat | bits <= 32
      ensures BitAnd(if taken then BitOr(ShiftLeft32(h, 1), 1) else ShiftLeft32(h, 1), Pow2(bits) - 1)
              == LowBits(2 * h + Bit(taken), bits)
    {
      HistoryStep(h, taken, bits);
    }
  }

  /** Feed a sequence of outcomes, oldest first, into the history register. */
  function AddHistoryAll(g: Gshare, outcomes: seq<bool>): (r: Gshare)
    ensures r.ghistoryMask == g.ghistoryMask && r.bc == g.bc
    decreases |outcomes|
  {
    if |outcomes| == 0 then g
    else AddHistoryAll(AddHistory(g, outcomes[0]), outcomes[1..])
  }

  /**
   * The binary number whose leading digits are `h` and whose following
   * digits are `outcomes`, oldest first (Horner's rule).
   */
  function HistoryValueFrom(h: nat, outcomes: seq<bool>): nat
    decreases |outcomes|
  {
    if |outcomes| == 0 then h
    else HistoryValueFrom(2 * h + Bit(outcomes[0]), outcomes[1..])
  }

  /** A sequence of outcomes read as a binary number, the oldest outcome most significant. */
  function HistoryValue(outcomes: seq<bool>): nat
  {
    HistoryValueFrom(0, outcomes)
  }

  /** (2 * (x mod m) + b) mod m == (2 * x + b) mod m */
  lemma ModStep(x: nat, b: nat, m: nat)
    requires m >= 1
    ensures (2 * (x % m) + b) % m == (2 * x + b) % m
  {
    var q := x / m;
    var y := 2 * (x % m) + b;
    assert x == m * q + x % m;
    assert 2 * x + b == m * (2 * q) + y;
    ModUnique(y, m, y / m, y % m);
    assert 2 * x + b == m * (2 * q + y / m) + y % m;
    ModUnique(2 * x + b, m, 2 * q + y / m, y % m);
  }

  /** Reducing the leading part modulo m does not change the value modulo m. */
  lemma {:induction false} HistoryValueFromMod(x: nat, outcomes: seq<bool>, m: nat)
    requires m >= 1
    ensures HistoryValueFrom(x % m, outcomes) % m == HistoryValueFrom(x, outcomes) % m
    decreases |outcomes|
  {
    if |outcomes| == 0 {
      ModUnique(x % m, m, 0, x % m);
    } else {
      var b := Bit(outcomes[0]);
      var rest := outcomes[1..];
      ModStep(x, b, m);
      HistoryValueFromMod(2 * (x % m) + b, rest, m);
      HistoryValueFromMod(2 * x + b, rest, m);
    }
  }

  /**
   * The history-register equation: after feeding `outcomes` into a register
   * with mask 2^bits - 1, the register holds the low `bits` bits of the old
   * history followed by the outcomes, read as a binary number.
   */
  lemma HistoryAfterOutcomes(g: Gshare, outcomes: seq<bool>, bits: nat)
    requires bits <= 32 && g.ghistoryMask == Pow2(bits) - 1 && g.ghistory < Pow2(bits)
    ensures AddHistoryAll(g, outcomes).ghistory == LowBits(HistoryValueFrom(g.ghistory, outcomes), bits)
  {
    HistoryAfterOutcomesMod(g, outcomes, bits);
    LowBitsIsMod(HistoryValueFrom(g.ghistory, outcomes), bits);
  }

  lemma {:induction false} HistoryAfterOutcomesMod(g: Gshare, outcomes: seq<bool>, bits: nat)
    requires bits <= 32 && g.ghistoryMask == Pow2(bits) - 1 && g.ghistory < Pow2(bits)
    ensures AddHistoryAll(g, outcomes).ghistory == HistoryValueFrom(g.ghistory, outcomes) % Pow2(bits)
    decreases |outcomes|
  {
    var m := Pow2(bits);
    if |outcomes| == 0 {
      ModUnique(g.ghistory, m, 0, g.ghistory);
    } else {
      var b := Bit(outcomes[0]);
      var next := AddHistory(g, outcomes[0]);
      assert next.ghistory == (2 * g.ghistory + b) % m by {
        LowBitsIsMod(2 * g.ghistory + b, bits);
      }
      HistoryAfterOutcomesMod(next, outcomes[1..], bits);
      HistoryValueFromMod(2 * g.ghistory + b, outcomes[1..], m);
    }
  }

  /** Leading digits shift by one place per outcome: h * 2^n + value of the outcomes. */
  lemma {:induction false} HistoryValueFromShift(h: nat, outcomes: seq<bool>)
    ensures HistoryValueFrom(h, outcomes) == h * Pow2(|outcomes|) + HistoryValue(outcomes)
    ensures HistoryValue(outcomes) < Pow2(|outcomes|)
    decreases |outcomes|
  {
    if |outcomes| > 0 {
      var n := |outcomes|;
      var b := Bit(outcomes[0]);
      var rest := outcomes[1..];
      HistoryValueFromShift(2 * h + b, rest);
      HistoryValueFromShift(b, rest);
      ShiftArith(h, b, Pow2(n - 1), HistoryValue(rest));
    }
  }

  lemma ShiftArith(h: nat, b: nat, p: nat, v: nat)
    requires b <= 1 && v < p
    ensures (2 * h + b) * p + v == h * (2 * p) + (b * p + v)
    ensures b * p + v < 2 * p
  {
  }

  /** The value of a concatenation continues from the value of its first part. */
  lemma {:induction false} HistoryValueFromAppend(h: nat, a: seq<bool>, c: seq<bool>)
    ensures HistoryValueFrom(h, a + c) == HistoryValueFrom(HistoryValueFrom(h, a), c)
    decreases |a|
  {
    if |a| > 0 {
      assert (a + c)[1..] == a[1..] + c;
      HistoryValueFromAppend(2 * h + Bit(a[0]), a[1..], c);
    } else {
      assert a + c == c;
    }
  }

  lemma ModOfShifted(v: nat, y: nat, p: nat, w: nat)
    requires p >= 1 && w < p && v == y * p + w
    ensures v % p == w
  {
    ModUnique(v, p, y, w);
  }

  /** The low k bits of a history value are the value of the last k outcomes. */
  lemma HistoryValueSuffix(h: nat, outcomes: seq<bool>, k: nat)
    requires k <= |outcomes|
    ensures HistoryValueFrom(h, outcomes) % Pow2(k) == HistoryValue(outcomes[|outcomes| - k..])
  {
    var a := outcomes[..|outcomes| - k];
    var c := outcomes[|outcomes| - k..];
    assert |c| == k;
    assert HistoryValueFrom(h, outcomes) == HistoryValueFrom(HistoryValueFrom(h, a), c) by {
      assert outcomes == a + c;
      HistoryValueFromAppend(h, a, c);
    }
    var y := HistoryValueFrom(h, a);
    HistoryValueFromShift(y, c);
    ModOfShifted(HistoryValueFrom(y, c), y, Pow2(k), HistoryValue(c));
  }

  /**
   * From a freshly initialised register of width `bits`, after at least
   * `bits` outcomes the history is exactly the last `bits` outcomes read as
   * a binary number.
   */
  lemma HistoryKeepsLastOutcomes(bits: nat, outcomes: seq<bool>)
    requires bits < 31 && bits <= |outcomes|
    ensures AddHistoryAll(GshareInit(bits), outcomes).ghistory
            == HistoryValue(outcomes[|outcomes| - bits..])
  {
    HistoryAfterOutcomesMod(GshareInit(bits), outcomes, bits);
    HistoryValueSuffix(0, outcomes, bits);
  }

  /**
   * The sequence of `test_gshare`, for every width from 2 on: the outcomes
   * 1,1, then width - 2 zeros, then 1,1 leave the history at 3 (the first
   * two outcomes have been shifted out).
   */
  lemma GshareHistoryScenario(bits: nat)
    requires 2 <= bits < 31
    ensures AddHistoryAll(GshareInit(bits),
              [true, true] + seq(bits - 2, _ => false) + [true, true]).ghistory == 3
  {
    var zeros := seq(bits - 2, _ => false);
    var outcomes := [true, true] + zeros + [true, true];
    assert outcomes[2..] == zeros + [true, true];
    HistoryKeepsLastOutcomes(bits, outcomes);
    HistoryValueFromAppend(0, zeros, [true, true]);
    NoTakenNoValue(zeros);
    assert HistoryValueFrom(0, [true, true]) == 3;
  }

  /** `test_gshare` with ten history bits: the mask is 1023 and the history ends at 3. */
  lemma GshareTestValues()
    ensures GshareInit(10).ghistoryMask == 1023
    ensures AddHistoryAll(GshareInit(10),
              [true, true, false, false, false, false, false, false, false, false, true, true]).ghistory == 3
  {
    assert Pow2(10) == 1024;
    GshareHistoryScenario(10);
    assert [true, true] + seq(8, _ => false) + [true, true]
           == [true, true, false, false, false, false, false, false, false, false, true, true];
  }

  /** Outcomes that are all not-taken have value 0. */
  lemma {:induction false} NoTakenNoValue(outcomes: seq<bool>)
    requires forall i :: 0 <= i < |outcomes| ==> !outcomes[i]
    ensures HistoryValue(outcomes) == 0
    decreases |outcomes|
  {
    if |outcomes| > 0 {
      NoTakenNoValue(outcomes[1..]);
    }
  }

  // ---------------------------------------------------------------------
  // Indexing, prediction and update
  // ---------------------------------------------------------------------

  /**
   * `gshare_getIndex`: the low `bits` bits of the PC XOR the history. With
   * the history below 2^bits the index is below 2^bits, and XOR-ing the
   * history back out recovers the low PC bits.
   */
  function GetIndex(g: Gshare, pc: U32, bits: nat): (r: U32)
    requires bits < 31 || bits == 32
    ensures g.ghistory < Pow2(bits) ==> r < Pow2(bits)
    ensures BitXor(r, g.ghistory) == LowBits(pc, bits)
  {
    var low := LowerNBits(pc, bits);
    XorU32(low, g.ghistory);
    IndexBound(low, g.ghistory, bits);
    XorCancel(low, g.ghistory);
    BitXor(low, g.ghistory)
  }

  lemma IndexBound(low: nat, h: nat, bits: nat)
    requires low < Pow2(bits)
    ensures h < Pow2(bits) ==> BitXor(low, h) < Pow2(bits)
  {
    if h < Pow2(bits) {
      XorBound(low, h, bits);
    }
  }

  /** `gshare_predict`: the bimodal outcome of the counter at the gshare index. */
  function Predict(g: Gshare, pc: U32, bits: nat): (taken: bool)
    requires Valid(g, bits)
    ensures GetIndex(g, pc, bits) < |Counts(g)|
    ensures taken <==> PredictsTaken(StateOf(Counts(g)[GetIndex(g, pc, bits)]))
  {
    GetOutcome(g.bc, GetIndex(g, pc, bits))
  }

  /**
   * `gshare_update`: train the counter at the index computed from the
   * pre-update history (decrement for outcome 0, increment otherwise), then
   * shift `outcome == 1` into the history. Nothing else in the table changes.
   */
  function Update(g: Gshare, pc: U32, outcome: U8, bits: nat): (r: Gshare)
    requires Valid(g, bits)
    ensures Valid(r, bits)
    ensures r.ghistoryMask == g.ghistoryMask
    ensures r.ghistory == LowBits(2 * g.ghistory + Bit(outcome == 1), bits)
    ensures |Counts(r)| == |Counts(g)| && GetIndex(g, pc, bits) < |Counts(g)|
    ensures forall j :: 0 <= j < |Counts(g)| && j != GetIndex(g, pc, bits) ==> Counts(r)[j] == Counts(g)[j]
    ensures StateOf(Counts(r)[GetIndex(g, pc, bits)])
            == Next(StateOf(Counts(g)[GetIndex(g, pc, bits)]), outcome != 0)
  {
    var idx := GetIndex(g, pc, bits);
    var trained := g.(bc := Train(g.bc, idx, outcome));
    AddHistory(trained, outcome == 1)
  }

  /**
   * A correct prediction is reinforced: after an update with the outcome the
   * predictor had predicted, the counter it read still predicts that outcome.
   */
  lemma UpdateKeepsCorrectPrediction(g: Gshare, pc: U32, outcome: U8, bits: nat)
    requires Valid(g, bits)
    requires Predict(g, pc, bits) == (outcome != 0)
    ensures GetOutcome(Update(g, pc, outcome, bits).bc, GetIndex(g, pc, bits)) == (outcome != 0)
  {
    var idx := GetIndex(g, pc, bits);
    TrainTowardOutcome(g.bc, idx, outcome);
  }

  /**
   * An outcome other than 0 and 1 trains the counter toward taken but enters
   * the history as not taken.
   */
  lemma OtherOutcomeShiftsZero(g: Gshare, pc: U32, outcome: U8, bits: nat)
    requires Valid(g, bits) && outcome > 1
    ensures Update(g, pc, outcome, bits).ghistory == LowBits(2 * g.ghistory, bits)
    ensures Update(g, pc, outcome, bits) == Update(g, pc, 1, bits).(ghistory := LowBits(2 * g.ghistory, bits))
  {
  }

  lemma XorSolve(i: nat, h: nat, v: nat)
    requires BitXor(i, h) == v
    ensures i == BitXor(v, h)
  {
    XorCancel(i, h);
  }

  lemma UpdateFromFreshTaken(bits: nat, pc: U32)
    requires 1 <= bits < 31
    ensures Update(GshareInit(bits), pc, 1, bits).ghistory == 1
  {
    assert LowBits(1, bits) == 1 by {
      Pow2Monotone(1, bits);
      assert Pow2(1) == 2;
      LowBitsIsMod(1, bits);
      ModUnique(1, Pow2(bits), 0, 1);
    }
  }

  /**
   * The index scenario of a fresh predictor at a PC whose low `bits` bits are
   * zero (such as 0x4 with two history bits): the first prediction reads
   * index 0; after a taken update the history is 0b01 and the next
   * prediction at the same PC reads index 0b01.
   */
  lemma GshareIndexScenario(bits: nat, pc: U32)
    requires 1 <= bits < 31 && LowBits(pc, bits) == 0
    ensures GetIndex(GshareInit(bits), pc, bits) == 0
    ensures Update(GshareInit(bits), pc, 1, bits).ghistory == 1
    ensures GetIndex(Update(GshareInit(bits), pc, 1, bits), pc, bits) == 1
  {
    var g := GshareInit(bits);
    assert GetIndex(g, pc, bits) == 0 by {
      XorSolve(GetIndex(g, pc, bits), 0, 0);
    }
    UpdateFromFreshTaken(bits, pc);
    var g' := Update(g, pc, 1, bits);
    assert GetIndex(g', pc, bits) == 1 by {
      XorSolve(GetIndex(g', pc, bits), 1, 0);
      assert BitXor(0, 1) == 1;
    }
  }
}
