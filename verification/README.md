# Gshare branch predictor in Dafny

A model of the core of a trace-driven branch predictor written in C
(`src/predictor.c`), with proofs about it. The core has these parts:

- **bit helpers.** `getLowerNBits` keeps the low `n` bits of a `uint32_t`. `getTableSize` computes `1 << bits`.
- **counter table.** `struct Counter` is a table of saturating counters. `increment` adds one and stops at the maximum. `decrement` subtracts one and stops at zero.
- **bimodal counter.** `BimodalCounter` is a counter table with maximum 3, so each entry is a 2-bit counter. `getOutcome` predicts taken when a counter is at least 2.
- **gshare predictor.** The predictor has a global history register of `ghistoryBits` bits. Its mask is `getLowerNBits(~0, ghistoryBits)`. To get a table index, it XORs the low PC bits with the history. `gshare_predict` reads the counter at that index. `gshare_update` trains that counter and then shifts the outcome into the history.
- **local history table.** Only its zeroed initial state (`lhist_init`) exists in the source.
- **front end.** `init_predictor`, `make_prediction` (dispatch on the strategy) and `train_predictor`.

Modules, one file each:

| file | module | models |
|---|---|---|
| `bits.dfy` | `Bits` | `uint32_t`/`uint8_t`; the operators `&`, `\|`, `^` and `<<`; `getLowerNBits`; `getTableSize` |
| `counter.dfy` | `Counters` | `struct Counter`, `counter_init`, `increment`, `decrement` |
| `bimodal.dfy` | `Bimodal` | `BimodalCounter`, `getOutcome`; a four-state reference machine |
| `gshare.dfy` | `GsharePredictor` | `struct Gshare` and the `gshare_*` functions |
| `lhist.dfy` | `LocalHistory` | `struct Lhist`, `lhist_init` |
| `predictor.dfy` | `Predictor` | `init_predictor`, `make_prediction`, `train_predictor` |

Modelling choices:

- **Integer types.**
  - A `uint32_t` is an integer in [0, 2^32). A `uint8_t` is an integer in [0, 256).
  - `&`, `|` and `^` are defined bit by bit.
  - `x << 1` on a `uint32_t` is `2x mod 2^32`, so bits shifted out of the word are lost, as in C.
- **The history width.** The source reads a global `ghistoryBits` inside `gshare_getIndex`. Here it is an explicit parameter `bits`.
  - `GsharePredictor.Valid(g, bits)` ties the state to the width: the mask is 2^bits - 1, the history is below 2^bits, and the table has at least 2^bits counters.
  - `Predictor.Valid` ties the gshare state to the configured width.
- **State.** The globals `bpType`, the widths and `gshare` become the fields of an immutable `Predictor` value. Every operation returns the new state.
- **Properties are stated against independent references.**
  - `getLowerNBits` and every mask are compared with `LowBits`, which reads off the low n bits of a number one at a time. `Bits.LowBitsIsMod` shows it equals the number modulo 2^n.
  - Counters are compared with `min`/`max` closed forms.
  - The bimodal table is compared with the textbook four-state machine (strongly/weakly not-taken/taken).
  - The history register is compared with "the low bits of the outcomes read as a binary number".
- **The outcome byte.** `gshare_update` decrements for outcome 0 and increments for any other value, but shifts `outcome == 1` into the history. The model keeps exactly this. `OtherOutcomeShiftsZero` states the consequence for outcomes above 1.
- **Widths.** No width is validated: the code shifts `1 << bits` on a C `int`, and widths of 31 or more are undefined behaviour there. Every member that reaches such a shift therefore requires a width below 31. `getLowerNBits` also takes n = 32, which it returns before shifting.

## Model

| member | source | states |
|---|---|---|
| Bits.LowerNBits | src/predictor.c:38-45 | the masked value (or `val` itself for n = 32) is the low n bits of `val`, i.e. `LowBits(val, n)`, the bit-by-bit reference |
| Bits.LowBitsIsMod | src/predictor.c:42-44 | the low n bits of x, which the mask `(1 << n) - 1` keeps, are `x mod 2^n` |
| Bits.LowerNBitsTestValues | src/tests.c:3-17 | the low 4 bits of 72 are 8 and the low 5 bits of 1365 are 21 |
| Bits.TableSize | src/predictor.c:47-50 | `1 << bits` is 2^bits, which is between 1 and 2^31 - 1 for every width below 31, so it fits a C `int` |
| Counters.CounterInit | src/predictor.c:61-70 | corrected: a table created for `tableSize` entries has exactly `tableSize` entries, all 0, with the given maximum, and every entry in range |
| Counters.CounterInitAsWritten | src/predictor.c:61-70 | as written: the table has 2^tableSize entries, all 0 |
| Counters.AsWrittenSizeDiffers | src/predictor.c:61-65 | the as-written table never has the size asked for; asking for 4 entries gives 16 |
| Counters.Increment | src/predictor.c:78-84 | adds one below the maximum and gives the maximum at or above it; never exceeds the maximum; only entry `index` changes; entries stay in [0, max] |
| Counters.Decrement | src/predictor.c:86-92 | subtracts one from a nonzero entry; 0 stays 0; never goes negative from a non-negative entry; only entry `index` changes; entries stay in range |
| Counters.IncrementSaturates | src/predictor.c:78-84 | n increments from v in [0, max] give min(v + n, max) and leave every other entry alone |
| Counters.DecrementFloors | src/predictor.c:86-92 | n decrements from v >= 0 give max(v - n, 0) and leave every other entry alone |
| Counters.DecrementUndoesIncrement | src/predictor.c:78-92 | a decrement restores the table after an increment that did not saturate |
| Counters.IncrementUndoesDecrement | src/predictor.c:78-92 | an increment restores the table after a decrement that did not stop at zero |
| Counters.CounterScenario | src/tests.c:19-50 | on 2^10 counters with maximum 3: three increments give 3, a fourth still gives 3, and four decrements give 0 |
| Bimodal.BimodalInit | src/predictor.c:100-106 | corrected: a zeroed table of exactly the requested number of 2-bit counters (maximum 3) |
| Bimodal.GetOutcome | src/predictor.c:114-117 | on a valid table, the prediction is taken exactly when the counter's four-state machine is in a taken state |
| Bimodal.Train | src/predictor.c:177-180 | outcome 0 decrements and any other value increments; the counter takes exactly the state machine's transition; nothing else changes; the table stays valid |
| Bimodal.TrainTowardOutcome | src/predictor.c:114-117 | hysteresis: training with the outcome already predicted keeps it, and two equal outcomes make any counter predict that outcome |
| Bimodal.StrongStateResists | src/predictor.c:114-117 | from a strong state, one training of either outcome leaves the prediction unchanged |
| GsharePredictor.LowMaskOfAllOnes | src/predictor.c:145 | `getLowerNBits(~0, bits)` is 2^bits - 1 |
| GsharePredictor.GshareInit | src/predictor.c:138-147 | corrected: history 0, mask 2^bits - 1, exactly 2^bits zeroed counters, and the state is valid for `bits` |
| GsharePredictor.GshareInitAsWritten | src/predictor.c:138-147 | as written: history 0 and mask 2^bits - 1, but 2^(2^bits) counters; the oversized table still keeps the state valid for `bits` |
| GsharePredictor.DoubleTableSize | src/predictor.c:141-142 | the as-written table never has 2^bits entries (16 instead of 4 for two bits); from five bits on, the second shift count is at least 32 |
| GsharePredictor.HistoryStep | src/predictor.c:155-161 | shift, optional `\| 1`, and mask with 2^bits - 1 give the low `bits` bits of 2h + b, although the shift drops bit 31 of the word |
| GsharePredictor.AddHistory | src/predictor.c:155-161 | for the mask 2^bits - 1, the new history is the low `bits` bits of 2h + taken; it stays under the mask; mask and table unchanged |
| GsharePredictor.HistoryAfterOutcomes | src/predictor.c:155-161 | after any sequence of outcomes, the history is the low `bits` bits of the old history followed by the outcomes, as a binary number |
| GsharePredictor.HistoryValueFromShift | src/predictor.c:155-161 | appending k outcomes to h gives h * 2^k plus the outcomes' own value, which is below 2^k |
| GsharePredictor.HistoryKeepsLastOutcomes | src/predictor.c:155-161 | from a fresh register, after at least `bits` outcomes the history is exactly the last `bits` outcomes as a binary number |
| GsharePredictor.GshareHistoryScenario | src/tests.c:86-95 | for every width >= 2, the outcomes 1,1, then width - 2 zeros, then 1,1 leave the history at 3 |
| GsharePredictor.GshareTestValues | src/tests.c:76-97 | with ten bits, the mask is 1023 and the twelve outcomes of the self-test leave the history at 3 |
| GsharePredictor.GetIndex | src/predictor.c:163-166 | with a history below 2^bits, the index is below 2^bits; XOR-ing the history back out recovers the low `bits` bits of the PC |
| GsharePredictor.Predict | src/predictor.c:168-172 | the index is inside the table, and the prediction is taken exactly when that counter's state predicts taken |
| GsharePredictor.Update | src/predictor.c:174-182 | the counter at the pre-update index takes one state-machine step; other counters are unchanged; the history becomes the low `bits` bits of 2h + (outcome == 1); validity and mask are kept |
| GsharePredictor.UpdateKeepsCorrectPrediction | src/predictor.c:168-182 | after an update with the outcome that was predicted, the counter it read still predicts that outcome |
| GsharePredictor.OtherOutcomeShiftsZero | src/predictor.c:174-182 | an outcome above 1 trains like outcome 1 but enters the history as a 0 |
| GsharePredictor.GshareIndexScenario | src/predictor.c:163-182 | at a PC whose low bits are 0, a fresh predictor reads index 0; after a taken update, the history is 1 and it reads index 1 |
| LocalHistory.LhistInit | src/predictor.c:185-195 | corrected: 2^pcIndexBits zeroed history entries and a zeroed, valid table of 2^lhistoryBits 2-bit counters |
| Predictor.InitPredictor | src/predictor.c:214-219 | corrected: a fresh gshare predictor of the configured width, whatever the strategy: configuration kept, history 0, 2^ghistoryBits counters, all 0 |
| Predictor.MakePrediction | src/predictor.c:225-244 | static gives TAKEN; gshare gives TAKEN exactly when the indexed counter predicts taken; tournament, custom and unknown strategies give NOTTAKEN |
| Predictor.TrainPredictor | src/predictor.c:250-254 | gshare is updated under every strategy: the indexed counter takes one state-machine step toward the outcome, no other counter changes, the history takes `outcome == 1`, and the configuration is kept |
| Predictor.TrainingLeavesFixedStrategies | src/predictor.c:230-243 | under any strategy other than gshare, no trace changes the prediction |
| Predictor.TrainAllHistory | src/predictor.c:250-254 | after a trace, the history is the low ghistoryBits bits of the old history followed by the trace's `outcome == 1` bits |
| Predictor.FrontEndScenario | src/predictor.c:225-254 | at a PC with zero low bits, gshare predicts NOTTAKEN from counter 0; a taken branch raises counter 0 to 1; the next prediction reads counter 1 and is NOTTAKEN |
| Predictor.FrontEndScenarioAt4 | src/predictor.c:225-254 | the same at PC 0x4 with two history bits: indices 0 then 1, history 1, both predictions NOTTAKEN |

## Left out

- Memory management: `malloc`, `calloc` and `free`, and `counter_destroy`, `bimodalCounter_destroy`, `gshare_destroy` and `lhist_destroy` (src/predictor.c:72-76, 108-112, 149-153, 197-202). The model has immutable values and no allocation failure.
- The student identification strings, `bpName` and `verbose` (src/predictor.c:15-31). They are labels with no behaviour.
- The tournament and custom strategies. The source has no logic for them: `make_prediction` falls through to NOTTAKEN, and that fall-through is modelled.
- The local history table beyond its initial state. No prediction or update in the source reads or writes it.
- `src/trace_runner.py`, the driver that runs trace files through the simulator. It is I/O around the core.
- The random fill in the bimodal self-test (src/tests.c:57-61). `Bimodal.GetOutcome` states the property the test samples, for every table and index.
- Widths of 31 or more. `1 << bits` on a C `int` is undefined behaviour there, so every operation that shifts requires a smaller width. `Bits.LowerNBits` and `GsharePredictor.GetIndex` also accept 32, which `getLowerNBits` returns before shifting.
- `predictor.h` is not part of this model. The values TAKEN = 1 and NOTTAKEN = 0, and the strategy names, are taken from their uses in `src/predictor.c`.
- Counters.Increment: does not model `int` overflow of a counter entry at `INT_MAX`, because entries stay within [0, max_count] from initialisation on.
- The read-only nature of `gshare_predict` and `make_prediction` is not stated as a contract, because in the model they are pure functions of the state.

## Findings

| source | as written | input that shows it | evidently intended | confidence | as-written member | corrected member |
|---|---|---|---|---|---|---|
| src/predictor.c:64 with 141-142 (also 189, 193) | `gshare_init` computes `getTableSize(ghistoryBits)` and passes it to `bimodalCounter_init`, whose `counter_init` applies `getTableSize` again; the table gets 2^(2^bits) entries | ghistoryBits = 2 gives 16 counters instead of 4; ghistoryBits = 10 (the self-test) shifts `1 << 1024`, which is undefined for a C `int` | `counter_init` allocates `table_size` entries, the number its callers already computed (the self-tests index up to `getTableSize(10)` entries) | high, not executed | GsharePredictor.GshareInitAsWritten, GsharePredictor.DoubleTableSize, Counters.CounterInitAsWritten, Counters.AsWrittenSizeDiffers | GsharePredictor.GshareInit, Counters.CounterInit, Bimodal.BimodalInit, Predictor.InitPredictor, LocalHistory.LhistInit |
