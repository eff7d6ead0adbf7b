# PV inverter aggregator: one polling round, modelled in Dafny

This project models the core of `Huawei_modubs_UpdateAndServe_Multiparameter.py`. That program polls a fixed set of Huawei SUN2000 inverters over Modbus TCP. It reads two measurements from each one, `active_power` and then `Accumulated_energy_yield`, and sums each measurement over all inverters. It then publishes the sums as holding registers on its own Modbus TCP server.

A polling round has three steps. The model gives each step as a method of the class `PollLoop.PollEngine`, or as a module-level method where the source's function touches no global state:

- **Reading** (`PollEngine.ReadMeasurementValues`, with `PollEngine.ReadDevice` for the inner loop over one device's measurements). It visits every inverter, then every measurement, in declaration order. A read fails if it raises or returns `None`. On failure the global failure counter goes up by one and the pair reports its last-known-good value as stale. On success the energy yield is divided by 100, truncating toward zero. The result becomes the new last-known-good value and is reported as fresh. The remote read is an input: `outcomes[d][m]` is `None` for a failed read or `Some(raw)` for a successful one. Devices are numbered in configuration order.
- **Aggregation** (`Aggregation.AggregateValues`). It sums each measurement over all devices, starting from 0. It also counts the fresh (device, measurement) pairs. In this variant that count is the health word, as the module docstring says.
- **Packing** (`PollEngine.UpdateModbusRegisters`). It writes each sum as a high word then a low word at offsets 2i and 2i+1. The count goes, unmasked, into the trailing register 2K, where K is the number of measurements. The table has 2K+1 registers.

`PollEngine.Round` is one iteration of `main_loop`. `PollEngine.RunRounds` is a finite prefix of that loop.

Each step is proved against specification functions on values:
- `ReadingEngine.ReadRound` and `ReadingEngine.NextLastGood` for reading.
- `Aggregation.Sums`, `Aggregation.Total` and `Aggregation.FreshCount` for aggregation.
- `RegisterPacker.RegisterTable`, `High` and `Low` for packing.

The lemmas say what those functions guarantee. Python's `>> 16` and `& 0xFFFF` on unbounded integers floor and take a non-negative remainder. Dafny's `/` and `%` with the positive divisor 65536 do the same, negative sums included.

The last-known-good table stores values after scaling. So when an energy-yield read fails, the stored kWh value is reused as it is and is not divided by 100 again. `PollLoop.TwoInverterScenario` proves this. Inverter B's stored yield of 2000 adds 2000 to the sum, not 20. Both of inverter A's pairs count as fresh.

## Model

| member | source | states |
|---|---|---|
| `Measurements.TruncDiv100` | Huawei_modubs_UpdateAndServe_Multiparameter.py:115-116 | the energy-yield conversion divides by 100 truncating toward zero: for a non-negative raw reading 100·r ≤ raw < 100·r+100, for a negative one 100·r−100 < raw ≤ 100·r ≤ 0 |
| `Measurements.Scale` | Huawei_modubs_UpdateAndServe_Multiparameter.py:115-116 | only the energy yield is scaled: active power is recorded as read, the energy yield as the raw value divided by 100 truncated toward zero (remainder in [0, 100) for a non-negative reading, in (−100, 0] for a negative one) |
| `Measurements.ScaleExamples` | Huawei_modubs_UpdateAndServe_Multiparameter.py:115-116 | raw energy yield 12345 records 123, 99 records 0, −150 records −1; active power is recorded unscaled |
| `ReadingEngine.ReadRound` | Huawei_modubs_UpdateAndServe_Multiparameter.py:105-130 | the round report holds one entry per device and per measurement, for every device of the input; what each entry is (the per-pair rule `ReadPair`) is proved by `ReportIsFreshOrFallback` |
| `ReadingEngine.NextLastGood` | Huawei_modubs_UpdateAndServe_Multiparameter.py:118-124 | the last-known-good table after a round has the same devices and measurements; that its entries are the reported values, unchanged where a read failed, is proved by `LastGoodFollowsReport` |
| `ReadingEngine.ReportIsFreshOrFallback` | Huawei_modubs_UpdateAndServe_Multiparameter.py:111-127 | the per-pair rule `ReadPair` for every pair of a round: a pair is reported fresh exactly when its read succeeded; a successful read reports the scaled raw value, a failed one (exception or `None`) reports exactly the prior last-known-good value |
| `ReadingEngine.LastGoodFollowsReport` | Huawei_modubs_UpdateAndServe_Multiparameter.py:118-124 | after a round the last-known-good table equals the values the round reported, and an entry whose read failed is unchanged |
| `ReadingEngine.PairIsolation` | Huawei_modubs_UpdateAndServe_Multiparameter.py:107-127 | a pair's report and its new last-known-good value depend only on that pair's own outcome and prior value, whatever the other pairs did |
| `ReadingEngine.AllFailedRound` | Huawei_modubs_UpdateAndServe_Multiparameter.py:120-124 | when every read fails, the reported values are the last-known-good table, the table is unchanged, and devices × measurements failures are counted |
| `ReadingEngine.RowFailuresBound` | Huawei_modubs_UpdateAndServe_Multiparameter.py:109-121 | a device's failures number at most its measurements; zero exactly when every read succeeded, all of them exactly when every read failed |
| `Aggregation.AggregateValues` | Huawei_modubs_UpdateAndServe_Multiparameter.py:132-147 | the loop returns, per measurement, the sum over all devices of the reported values, and the number of fresh pairs |
| `Aggregation.AccumulateDevice` | Huawei_modubs_UpdateAndServe_Multiparameter.py:142-145 | the inner loop for one device: each measurement's running sum grows by exactly that device's value, and the fresh pairs added are that device's `RowFresh` |
| `Aggregation.Sums` | Huawei_modubs_UpdateAndServe_Multiparameter.py:138-143 | one entry per measurement, in declaration order; that each is the total over all devices is proved by `AggregateValues`, and `AllFailedSums` gives the all-failed case |
| `Aggregation.RowFresh` | Huawei_modubs_UpdateAndServe_Multiparameter.py:144-145 | a device contributes no fresh pair exactly when none of its reads is flagged `updated` |
| `Aggregation.FreshCount` | Huawei_modubs_UpdateAndServe_Multiparameter.py:139-145 | the valid-readings count is 0 exactly when no pair of the round is flagged `updated` |
| `Aggregation.FreshCountBound` | Huawei_modubs_UpdateAndServe_Multiparameter.py:139-145 | the valid-readings count is at most devices × measurements |
| `Aggregation.RowFreshBound` | Huawei_modubs_UpdateAndServe_Multiparameter.py:142-145 | a device contributes at most one fresh pair per measurement |
| `Aggregation.RowFreshPlusFailures` | Huawei_modubs_UpdateAndServe_Multiparameter.py:109-145 | within one device, fresh pairs plus failed reads equal the number of measurements read |
| `Aggregation.FreshPlusFailures` | Huawei_modubs_UpdateAndServe_Multiparameter.py:118-145 | the round's valid-readings count plus the failures it adds to the counter equal devices × measurements |
| `Aggregation.AllFailedSums` | Huawei_modubs_UpdateAndServe_Multiparameter.py:138-145 | if every read fails, the sums equal the column sums of the last-known-good table and the count is 0 |
| `Aggregation.AllFailedRepeatsPreviousSums` | Huawei_modubs_UpdateAndServe_Multiparameter.py:141-143 | a round in which every read fails reproduces the previous round's sums exactly |
| `RegisterPacker.PackRoundTrip` | Huawei_modubs_UpdateAndServe_Multiparameter.py:158-159 | high and low words are in [0, 65535], high·65536 + low equals the sum mod 2^32, and a sum in [0, 2^32) is rebuilt exactly |
| `RegisterPacker.PackExample` | Huawei_modubs_UpdateAndServe_Multiparameter.py:158-159 | 0x18000 packs as high 1, low 0x8000; −1 packs as 0xFFFF, 0xFFFF |
| `RegisterPacker.Low` | Huawei_modubs_UpdateAndServe_Multiparameter.py:158 | `total & 0xFFFF`: a 16-bit word congruent to the sum modulo 65536, negative sums included |
| `RegisterPacker.High` | Huawei_modubs_UpdateAndServe_Multiparameter.py:159 | `(total >> 16) & 0xFFFF`: a 16-bit word such that the sum minus its low word minus 65536 times it is a multiple of 2^32 |
| `RegisterPacker.RegisterTable` | Huawei_modubs_UpdateAndServe_Multiparameter.py:156-164 | the table written by one call has 2K+1 registers for K sums; which word sits where is proved by `RegisterLayout` |
| `RegisterPacker.RegisterLayout` | Huawei_modubs_UpdateAndServe_Multiparameter.py:156-164 | register 2i holds the high word of sum i, register 2i+1 its low word, and register 2K the count as given |
| `RegisterPacker.WordsAt` | Huawei_modubs_UpdateAndServe_Multiparameter.py:157-162 | the measurement words produced by the offset-advancing loop sit at 2i and 2i+1 |
| `RegisterPacker.RegisterWordsFit` | Huawei_modubs_UpdateAndServe_Multiparameter.py:164 | given a count below 65536, every register of the table is a 16-bit word |
| `RegisterPacker.RegisterUnpack` | Huawei_modubs_UpdateAndServe_Multiparameter.py:157-162 | reading registers 2i and 2i+1 back as `(high << 16) | low` gives sum i mod 2^32 |
| `PollLoop.RoundTableMeaning` | Huawei_modubs_UpdateAndServe_Multiparameter.py:174-176 | a published table holds, for each measurement, the device sum of that round's reported values mod 2^32; the trailing word is the fresh count, equal to devices × measurements minus the round's failures; with fewer than 65536 pairs every word is 16-bit |
| `PollLoop.RoundTable` | Huawei_modubs_UpdateAndServe_Multiparameter.py:174-176 | what one round publishes: a table of 2K+1 registers packing that round's sums and fresh count |
| `PollLoop.TwoInverterScenario` | Huawei_modubs_UpdateAndServe_Multiparameter.py:97-165 | A reads 100 and 5000, B fails both reads with last-known-good 50 and 2000: the table is [0, 150, 0, 2050, 2] and only A's entries are updated |
| `PollLoop.LastGoodAfter` | Huawei_modubs_UpdateAndServe_Multiparameter.py:173-174 | the last-known-good table after any number of rounds keeps its shape (its meaning is stated by the next two lemmas) |
| `PollLoop.NeverReachedKeepsInitial` | Huawei_modubs_UpdateAndServe_Multiparameter.py:118-124 | a pair that no round ever reads successfully keeps its initial value (0 from start-up) for the whole run |
| `PollLoop.LatestSuccessWins` | Huawei_modubs_UpdateAndServe_Multiparameter.py:116-118 | each last-known-good entry is the scaled value of the pair's most recent successful read: a success survives every later round that fails at that pair |
| `PollLoop.PollEngine.constructor` | Huawei_modubs_UpdateAndServe_Multiparameter.py:213 | at start-up every last-known-good value is 0, all 2K+1 registers are 0 and no failure has been counted |
| `PollLoop.PollEngine.ReadMeasurementValues` | Huawei_modubs_UpdateAndServe_Multiparameter.py:97-130 | the nested loop returns the round report of every pair, leaves the last-known-good table updated only at successful reads, raises the failure counter by exactly the number of failed pairs, and leaves the registers alone |
| `PollLoop.PollEngine.ReadDevice` | Huawei_modubs_UpdateAndServe_Multiparameter.py:109-128 | the inner loop for one device: each measurement reports per the per-pair rule `ReadPair` from the prior value, afterwards every entry of that device holds the value it reported and no other device changes, and the counter grows by that device's failed reads |
| `PollLoop.PollEngine.UpdateModbusRegisters` | Huawei_modubs_UpdateAndServe_Multiparameter.py:149-165 | one call overwrites every one of the 2K+1 registers with the packed table of the sums plus the count |
| `PollLoop.PollEngine.Round` | Huawei_modubs_UpdateAndServe_Multiparameter.py:173-176 | one iteration of the main loop updates the last-known-good table and the failure counter as the reading step does, and publishes the table of that round's sums and fresh count |
| `PollLoop.PollEngine.RunRounds` | Huawei_modubs_UpdateAndServe_Multiparameter.py:173-178 | over a finite run of rounds each starts from the values the previous one left, the counter grows by every round's failures, and the registers hold the last round's table |

## Left out

- Modbus TCP server, device identification and datastore (lines 20-22, 49-50, 180-192). These are library I/O. The register datastore is a plain array indexed by the offsets clients see. The library's internal one-place address shift is not modelled.
- Inverter transport (`connect_to_inverter`, `create_inverter_objects`, `reconnect_inverter`, lines 55-95, including `time.sleep(2)`). These are network calls. A read is an input outcome. The reconnect attempt after a failed read is a no-op, because its result is discarded.
- Threading and `data_lock` (lines 48, 155, 215-217). These are concurrency. Atomicity shows only in that one call of `UpdateModbusRegisters` sets the whole table. No reader thread is modelled.
- The infinite `while True` loop and `time.sleep(5)` (lines 173-178). Only a finite number of rounds is modelled, in `RunRounds`.
- YAML configuration loading (lines 31-34), logging (lines 25-28 and every log call) and the signal handler (lines 194-205). These are I/O glue. Devices are identified by their position in configuration order.
- `Measurements.TruncDiv100`: the source converts the yield with float division (`int(value / 100)`). The model uses exact integer truncation toward zero. The two differ only where float rounding matters, for readings beyond 2^53.
- `RegisterPacker.RegisterWordsFit`: the count register is written unmasked. That a count of 65536 or more cannot be served by the Modbus server is not modelled. The 16-bit bound is proved only under the premise that there are fewer than 65536 pairs.
