/**
 * The predictor front end: configuration, `init_predictor`,
 * `make_prediction` and `train_predictor`.
 *
 * The source keeps the strategy, the bit widths and the gshare predictor in
 * globals; here they are the fields of one `Predictor` value.
 */
module Predictor {
  import opened Bits
  import opened Bimodal
  import opened GsharePredictor

  /** The prediction values: taken is 1, not taken is 0. */
  const TAKEN: U8 := 1
  const NOTTAKEN: U8 := 0

  /** The strategy selector `bpType`; `Other` stands for every value the switch does not name. */
  datatype BpType = Static | GShare | Tournament | Custom | Other

  datatype Predictor = Predictor(
    bpType: BpType,
    ghistoryBits: nat,
    lhistoryBits: nat,
    pcIndexBits: nat,
    gshare: Gshare)

  /** The gshare state matches the configured global history width. */
  ghost predicate Valid(p: Predictor)
  {
    GsharePredictor.Valid(p.gshare, p.ghistoryBits)
  }

  /**
   * `init_predictor`: whatever the strategy, a gshare predictor with
   * `ghistoryBits` history bits is set up.
   */
  function InitPredictor(bpType: BpType, ghistoryBits: nat, lhistoryBits: nat, pcIndexBits: nat): (p: Predictor)
    requires ghistoryBits < 31
    ensures Valid(p)
    ensures p.bpType == bpType && p.ghistoryBits == ghistoryBits
    ensures p.lhistoryBits == lhistoryBits && p.pcIndexBits == pcIndexBits
    ensures p.gshare.ghistory == 0
    ensures |Counts(p.gshare)| == Pow2(ghistoryBits)
    ensures forall i :: 0 <= i < |Counts(p.gshare)| ==> Counts(p.gshare)[i] == 0
  {
    Predictor(bpType, ghistoryBits, lhistoryBits, pcIndexBits, GshareInit(ghistoryBits))
  }

  /**
   * `make_prediction`: TAKEN for the static strategy, the gshare prediction
   * for gshare, NOTTAKEN for every other strategy.
   */
  function MakePrediction(p: Predictor, pc: U32): (r: U8)
    requires Valid(p)
    ensures r == TAKEN || r == NOTTAKEN
    ensures p.bpType == Static ==> r == TAKEN
    ensures p.bpType == GShare ==>
              (r == TAKEN <==> PredictsTaken(StateOf(Counts(p.gshare)[GetIndex(p.gshare, pc, p.ghistoryBits)])))
    ensures p.bpType != Static && p.bpType != GShare ==> r == NOTTAKEN
  {
    match p.bpType
    case Static => TAKEN
    case GShare => if Predict(p.gshare, pc, p.ghistoryBits) then TAKEN else NOTTAKEN
    case _ => NOTTAKEN
  }

  /**
   * `train_predictor`: the gshare predictor is updated whatever the
   * strategy: the indexed counter takes one step toward the outcome, the
   * history takes `outcome == 1`; the configuration is left alone.
   */
  function TrainPredictor(p: Predictor, pc: U32, outcome: U8): (r: Predictor)
    requires Valid(p)
    ensures Valid(r)
    ensures r.bpType == p.bpType && r.ghistoryBits == p.ghistoryBits
    ensures r.lhistoryBits == p.lhistoryBits && r.pcIndexBits == p.pcIndexBits
    ensures r.gshare.ghistory == LowBits(2 * p.gshare.ghistory + Bit(outcome == 1), p.ghistoryBits)
    ensures |Counts(r.gshare)| == |Counts(p.gshare)|
    ensures forall j :: 0 <= j < |Counts(p.gshare)| && j != GetIndex(p.gshare, pc, p.ghistoryBits) ==>
              Counts(r.gshare)[j] == Counts(p.gshare)[j]
    ensures GetIndex(p.gshare, pc, p.ghistoryBits) < |Counts(p.gshare)|
    ensures StateOf(Counts(r.gshare)[GetIndex(p.gshare, pc, p.ghistoryBits)])
            == Next(StateOf(Counts(p.gshare)[GetIndex(p.gshare, pc, p.ghistoryBits)]), outcome != 0)
  {
    p.(gshare := Update(p.gshare, pc, outcome, p.ghistoryBits))
  }

  /** Run a trace of (pc, outcome) branches through `train_predictor`. */
  function TrainAll(p: Predictor, trace: seq<(U32, U8)>): (r: Predictor)
    requires Valid(p)
    ensures Valid(r) && r.bpType == p.bpType && r.ghistoryBits == p.ghistoryBits
    decreases |trace|
  {
    if |trace| == 0 then p
    else TrainAll(TrainPredictor(p, trace[0].0, trace[0].1), trace[1..])
  }

  /**
   * Training never changes what the static and the unimplemented strategies
   * predict: static stays TAKEN and the others stay NOTTAKEN after any trace.
   */
  lemma {:induction false} TrainingLeavesFixedStrategies(p: Predictor, trace: seq<(U32, U8)>, pc: U32)
    requires Valid(p) && p.bpType != GShare
    ensures MakePrediction(TrainAll(p, trace), pc) == MakePrediction(p, pc)
  {
  }

  /**
   * Under the gshare strategy the history register after a trace holds the
   * low `ghistoryBits` bits of the old history followed by the trace's
   * outcomes (1 as taken, anything else as not taken) as a binary number.
   */
  lemma TrainAllHistory(p: Predictor, trace: seq<(U32, U8)>)
    requires Valid(p)
    ensures TrainAll(p, trace).gshare.ghistory
            == LowBits(HistoryValueFrom(p.gshare.ghistory, TakenBits(trace)), p.ghistoryBits)
  {
    TrainAllHistoryMod(p, trace);
    LowBitsIsMod(HistoryValueFrom(p.gshare.ghistory, TakenBits(trace)), p.ghistoryBits);
  }

  lemma {:induction false} TrainAllHistoryMod(p: Predictor, trace: seq<(U32, U8)>)
    requires Valid(p)
    ensures TrainAll(p, trace).gshare.ghistory
            == HistoryValueFrom(p.gshare.ghistory, TakenBits(trace)) % Pow2(p.ghistoryBits)
    decreases |trace|
  {
    var m := Pow2(p.ghistoryBits);
    if |trace| > 0 {
      var next := TrainPredictor(p, trace[0].0, trace[0].1);
      var x := 2 * p.gshare.ghistory + Bit(trace[0].1 == 1);
      var rest := TakenBits(trace[1..]);
      assert TrainAll(p, trace).gshare.ghistory == HistoryValueFrom(x % m, rest) % m by {
        assert TrainAll(p, trace) == TrainAll(next, trace[1..]);
        assert next.gshare.ghistory == x % m by {
          LowBitsIsMod(x, p.ghistoryBits);
        }
        TrainAllHistoryMod(next, trace[1..]);
      }
      assert HistoryValueFrom(p.gshare.ghistory, TakenBits(trace)) == HistoryValueFrom(x, rest) by {
        assert TakenBits(trace)[1..] == rest;
      }
      HistoryValueFromMod(x, rest, m);
    } else {
      ModUnique(p.gshare.ghistory, m, 0, p.gshare.ghistory);
    }
  }

  /** The history bits a trace feeds in: `outcome == 1`. */
  function TakenBits(trace: seq<(U32, U8)>): (bits: seq<bool>)
    ensures |bits| == |trace|
    ensures forall i :: 0 <= i < |trace| ==> bits[i] == (trace[i].1 == 1)
    decreases |trace|
  {
    if |trace| == 0 then [] else [trace[0].1 == 1] + TakenBits(trace[1..])
  }

  /**
   * The gshare scenario through the front end, at a PC whose low
   * `ghistoryBits` bits are zero (0x4 with two history bits): the first
   * prediction reads counter 0; after a taken branch it reads counter 0b01,
   * which is still zero, so both predictions are NOTTAKEN while the taken
   * branch trained counter 0 to 1.
   */
  lemma FrontEndScenario(ghistoryBits: nat, pc: U32)
    requires 1 <= ghistoryBits < 31 && LowBits(pc, ghistoryBits) == 0
    ensures var p := InitPredictor(GShare, ghistoryBits, 0, 0);
            var q := TrainPredictor(p, pc, TAKEN);
            && GetIndex(p.gshare, pc, ghistoryBits) == 0
            && MakePrediction(p, pc) == NOTTAKEN
            && GetIndex(q.gshare, pc, ghistoryBits) == 1
            && Counts(q.gshare)[0] == 1
            && MakePrediction(q, pc) == NOTTAKEN
  {
    GshareIndexScenario(ghistoryBits, pc);
    var p := InitPredictor(GShare, ghistoryBits, 0, 0);
    assert Pow2(ghistoryBits) >= 2;
  }

  /** The scenario above at PC 0x4 with two history bits. */
  lemma FrontEndScenarioAt4()
    ensures var p := InitPredictor(GShare, 2, 0, 0);
            var q := TrainPredictor(p, 4, TAKEN);
            && GetIndex(p.gshare, 4, 2) == 0
            && GetIndex(q.gshare, 4, 2) == 1
            && q.gshare.ghistory == 1
            && MakePrediction(p, 4) == NOTTAKEN
            && MakePrediction(q, 4) == NOTTAKEN
  {
    assert Pow2(2) == 4;
    FrontEndScenario(2, 4);
  }
}
