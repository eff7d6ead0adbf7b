/**
 * The aggregator's mutable state and its polling round: the last-known-good
 * table, the global failure counter and the holding-register table, with one
 * method per step of a round and a bounded run of the main loop.
 */
module PollLoop {
  import opened Wrappers
  import opened Measurements
  import opened ReadingEngine
  import opened Aggregation
  import opened RegisterPacker

  /** The table a round publishes, as a function of its outcomes and the last-known-good values before it. */
  function RoundTable(outcomes: seq<seq<Option<int>>>, last: seq<seq<int>>): (r: seq<int>)
    requires IsGrid(outcomes) && IsGrid(last) && |last| == |outcomes|
    ensures |r| == TotalRegisterCount
  {
    var reports := ReadRound(outcomes, last);
    RegisterTable(Sums(Values(reports)), FreshCount(reports))
  }

  /**
   * What a published table means: registers 2m and 2m+1 read back as the
   * sum over all devices of measurement m's reported values modulo 2^32,
   * the trailing register is the number of fresh pairs (at most devices
   * times measurements), and with fewer than 2^16 pairs every register is
   * a 16-bit word.
   */
  lemma RoundTableMeaning(outcomes: seq<seq<Option<int>>>, last: seq<seq<int>>)
    requires IsGrid(outcomes) && IsGrid(last) && |last| == |outcomes|
    ensures forall m :: 0 <= m < NumMeasurements ==>
      Unpack(RoundTable(outcomes, last)[2 * m], RoundTable(outcomes, last)[2 * m + 1])
        == Total(Values(ReadRound(outcomes, last)), m) % PairModulus
    ensures RoundTable(outcomes, last)[MeasurementsRegisters] == FreshCount(ReadRound(outcomes, last))
    ensures RoundTable(outcomes, last)[MeasurementsRegisters]
        == |outcomes| * NumMeasurements - Failures(outcomes)
    ensures |outcomes| * NumMeasurements < WordModulus ==>
      forall k :: 0 <= k < TotalRegisterCount ==> 0 <= RoundTable(outcomes, last)[k] < WordModulus
  {
    var reports := ReadRound(outcomes, last);
    var sums, count := Sums(Values(reports)), FreshCount(reports);
    forall m | 0 <= m < NumMeasurements
      ensures Unpack(RoundTable(outcomes, last)[2 * m], RoundTable(outcomes, last)[2 * m + 1]) == sums[m] % PairModulus
    {
      RegisterUnpack(sums, count, m);
    }
    RegisterLayout(sums, count, 0);
    FreshCountBound(reports);
    FreshPlusFailures(outcomes, last);
    if |outcomes| * NumMeasurements < WordModulus {
      RegisterWordsFit(sums, count);
    }
  }

  /** Two inverters: A reads 100 W and 5000 (0.01 kWh); both reads of B fail with last-known-good 50 and 2000. */
  lemma TwoInverterScenario()
    ensures RoundTable([[Some(100), Some(5000)], [None, None]], [[0, 0], [50, 2000]])
      == [0, 150, 0, 2050, 2]
    ensures NextLastGood([[Some(100), Some(5000)], [None, None]], [[0, 0], [50, 2000]])
      == [[100, 50], [50, 2000]]
  {
    var o: seq<seq<Option<int>>> := [[Some(100), Some(5000)], [None, None]];
    var l := [[0, 0], [50, 2000]];
    var reports := [[PairReport(100, true), PairReport(50, true)], [PairReport(50, false), PairReport(2000, false)]];
    ScenarioReports(o, l);
    ScenarioSums(reports);
    ScenarioFresh(reports);
    ScenarioTable([150, 2050], 2);
    ScenarioNext(o, l);
  }

  lemma ScenarioTable(sums: seq<int>, count: int)
    requires sums == [150, 2050] && count == 2
    ensures RegisterTable(sums, count) == [0, 150, 0, 2050, 2]
  {
    assert sums[..1] == [150] && sums[..1][..0] == [];
    assert Words(sums[..1]) == [0, 150];
  }

  lemma ScenarioNext(o: seq<seq<Option<int>>>, l: seq<seq<int>>)
    requires o == [[Some(100), Some(5000)], [None, None]] && l == [[0, 0], [50, 2000]]
    ensures NextLastGood(o, l) == [[100, 50], [50, 2000]]
  {
    var next := NextLastGood(o, l);
    assert Scale(AccumulatedEnergyYield, 5000) == 50;
    assert next[0] == [100, 50] && next[1] == [50, 2000];
  }

  lemma ScenarioReports(o: seq<seq<Option<int>>>, l: seq<seq<int>>)
    requires o == [[Some(100), Some(5000)], [None, None]] && l == [[0, 0], [50, 2000]]
    ensures ReadRound(o, l) == [[PairReport(100, true), PairReport(50, true)], [PairReport(50, false), PairReport(2000, false)]]
  {
    var reports := ReadRound(o, l);
    assert Scale(AccumulatedEnergyYield, 5000) == 50;
    assert reports[0] == [PairReport(100, true), PairReport(50, true)];
    assert reports[1] == [PairReport(50, false), PairReport(2000, false)];
  }

  lemma ScenarioSums(reports: seq<seq<PairReport>>)
    requires reports == [[PairReport(100, true), PairReport(50, true)], [PairReport(50, false), PairReport(2000, false)]]
    ensures Sums(Values(reports)) == [150, 2050]
  {
    var vals := Values(reports);
    assert vals[0] == [100, 50] && vals[1] == [50, 2000];
    var v1 := vals[..1];
    assert vals[..|vals| - 1] == v1;
    assert v1 == [[100, 50]] && v1[..|v1| - 1] == [];
    assert Total(v1, 0) == Total([], 0) + 100 == 100;
    assert Total(v1, 1) == Total([], 1) + 50 == 50;
    assert Total(vals, 0) == 150 && Total(vals, 1) == 2050;
  }

  lemma ScenarioFresh(reports: seq<seq<PairReport>>)
    requires reports == [[PairReport(100, true), PairReport(50, true)], [PairReport(50, false), PairReport(2000, false)]]
    ensures FreshCount(reports) == 2
  {
    var a0, a1 := reports[0][..1], reports[1][..1];
    assert reports[0][..|reports[0]| - 1] == a0 && reports[1][..|reports[1]| - 1] == a1;
    assert a0 == [PairReport(100, true)] && a0[..|a0| - 1] == [];
    assert a1 == [PairReport(50, false)] && a1[..|a1| - 1] == [];
    assert RowFresh(a0) == RowFresh([]) + 1 == 1;
    assert RowFresh(a1) == RowFresh([]) == 0;
    var r1 := reports[..1];
    assert reports[..|reports| - 1] == r1;
    assert r1 == [reports[0]] && r1[..|r1| - 1] == [];
    assert FreshCount(r1) == FreshCount([]) + 2 == 2;
  }

  /** The last-known-good table after a sequence of rounds. */
  function LastGoodAfter(schedule: seq<seq<seq<Option<int>>>>, last: seq<seq<int>>): (r: seq<seq<int>>)
    requires forall k :: 0 <= k < |schedule| ==> IsGrid(schedule[k]) && |schedule[k]| == |last|
    requires IsGrid(last)
    ensures IsGrid(r) && |r| == |last|
  {
    if |schedule| == 0 then last
    else NextLastGood(schedule[|schedule| - 1], LastGoodAfter(schedule[..|schedule| - 1], last))
  }

  /** A pair that no round of the schedule ever reads successfully keeps its initial value throughout. */
  lemma {:induction false} NeverReachedKeepsInitial(schedule: seq<seq<seq<Option<int>>>>, last: seq<seq<int>>, d: nat, m: nat)
    requires forall k :: 0 <= k < |schedule| ==> IsGrid(schedule[k]) && |schedule[k]| == |last|
    requires IsGrid(last) && d < |last| && m < NumMeasurements
    requires forall k :: 0 <= k < |schedule| ==> |schedule[k][d]| == NumMeasurements && schedule[k][d][m].None?
    ensures LastGoodAfter(schedule, last)[d][m] == last[d][m]
  {
    if |schedule| > 0 {
      NeverReachedKeepsInitial(schedule[..|schedule| - 1], last, d, m);
    }
  }

  /**
   * Each last-known-good entry is the scaled value of its pair's most
   * recent successful read: a success in round k survives every later
   * round that fails at that pair.
   */
  lemma {:induction false} LatestSuccessWins(schedule: seq<seq<seq<Option<int>>>>, last: seq<seq<int>>, d: nat, m: nat, k: nat)
    requires forall j :: 0 <= j < |schedule| ==> IsGrid(schedule[j]) && |schedule[j]| == |last|
    requires IsGrid(last) && d < |last| && m < NumMeasurements && k < |schedule|
    requires |schedule[k][d]| == NumMeasurements && schedule[k][d][m].Some?
    requires forall j :: k < j < |schedule| ==> |schedule[j][d]| == NumMeasurements && schedule[j][d][m].None?
    ensures LastGoodAfter(schedule, last)[d][m] == Scale(Kinds[m], schedule[k][d][m].value)
  {
    var n := |schedule|;
    if k < n - 1 {
      LatestSuccessWins(schedule[..n - 1], last, d, m, k);
    }
  }

  /** The read failures of a sequence of rounds. */
  function ScheduleFailures(schedule: seq<seq<seq<Option<int>>>>): nat
  {
    if |schedule| == 0 then 0 else ScheduleFailures(schedule[..|schedule| - 1]) + Failures(schedule[|schedule| - 1])
  }

  /** The inverter aggregator: last-known-good values, failure counter and the served register table. */
  class PollEngine {
    /** `last_successful`: device by measurement position, zero until a successful read. */
    const lastGood: array2<int>
    /** `failed_reading_counter`: every failed read since start-up. */
    var failedCount: nat
    /** The holding registers served to downstream clients. */
    const regs: array<int>

    ghost predicate Valid()
      reads this
    {
      lastGood.Length1 == NumMeasurements && regs.Length == TotalRegisterCount
    }

    /** The last-known-good table as a value. */
    ghost function LastGood(): (s: seq<seq<int>>)
      reads this, lastGood
      ensures |s| == lastGood.Length0
      ensures forall d :: 0 <= d < |s| ==> |s[d]| == lastGood.Length1
      ensures forall d, m :: 0 <= d < lastGood.Length0 && 0 <= m < lastGood.Length1 ==> s[d][m] == lastGood[d, m]
    {
      seq(lastGood.Length0, d requires 0 <= d < lastGood.Length0 reads lastGood =>
        seq(lastGood.Length1, m requires 0 <= m < lastGood.Length1 reads lastGood => lastGood[d, m]))
    }

    /** Start-up: every last-known-good value and every register is 0, no failure counted yet. */
    constructor (devices: nat)
      ensures Valid() && fresh(lastGood) && fresh(regs)
      ensures LastGood() == seq(devices, _ => seq(NumMeasurements, _ => 0))
      ensures regs[..] == seq(TotalRegisterCount, _ => 0)
      ensures failedCount == 0
    {
      lastGood := new int[devices, NumMeasurements]((_, _) => 0);
      regs := new int[TotalRegisterCount](_ => 0);
      failedCount := 0;
      new;
      assert forall d :: 0 <= d < devices ==> LastGood()[d] == seq(NumMeasurements, _ => 0);
    }

    /**
     * The reading step: every device and every measurement in order; a
     * success records the scaled value as last-known-good, a failure
     * counts once and reports the last-known-good value.
     */
    method ReadMeasurementValues(outcomes: seq<seq<Option<int>>>) returns (detailed: seq<seq<PairReport>>)
      requires Valid()
      requires IsGrid(outcomes) && |outcomes| == lastGood.Length0
      modifies this, lastGood
      ensures Valid()
      ensures detailed == ReadRound(outcomes, old(LastGood()))
      ensures LastGood() == NextLastGood(outcomes, old(LastGood()))
      ensures failedCount == old(failedCount) + Failures(outcomes)
      ensures unchanged(regs)
    {
      ghost var last0 := LastGood();
      ghost var spec := ReadRound(outcomes, last0);
      ghost var next := NextLastGood(outcomes, last0);
      var devices := lastGood.Length0;
      detailed := [];
      var d := 0;
      while d < devices
        invariant 0 <= d <= devices
        invariant detailed == spec[..d]
        invariant forall i, j :: 0 <= i < devices && 0 <= j < NumMeasurements ==>
          lastGood[i, j] == if i < d then next[i][j] else last0[i][j]
        invariant failedCount == old(failedCount) + Failures(outcomes[..d])
        invariant unchanged(regs)
      {
        assert outcomes[..d + 1][..d] == outcomes[..d];
        var row := ReadDevice(d, outcomes[d]);
        forall j | 0 <= j < NumMeasurements
          ensures row[j] == spec[d][j] && next[d][j] == row[j].value
        {
          ReportIsFreshOrFallback(outcomes, last0, d, j);
        }
        assert row == spec[d];
        detailed := detailed + [row];
        d := d + 1;
      }
      assert outcomes[..d] == outcomes;
      assert forall i :: 0 <= i < devices ==> LastGood()[i] == next[i];
    }

    /**
     * The inner loop of the reading step, for device `d`: each measurement
     * in order is read, recorded on success, or counted and reported from
     * the last-known-good value on failure. Afterwards every entry of the
     * device holds the value it reported; no other device is touched.
     */
    method ReadDevice(d: nat, outcomes: seq<Option<int>>) returns (row: seq<PairReport>)
      requires Valid()
      requires d < lastGood.Length0 && |outcomes| == NumMeasurements
      modifies this, lastGood
      ensures Valid()
      ensures |row| == NumMeasurements
      ensures forall m :: 0 <= m < NumMeasurements ==> row[m] == ReadPair(Kinds[m], outcomes[m], old(lastGood[d, m]))
      ensures forall i, j :: 0 <= i < lastGood.Length0 && 0 <= j < NumMeasurements ==>
        lastGood[i, j] == if i == d then row[j].value else old(lastGood[i, j])
      ensures failedCount == old(failedCount) + RowFailures(outcomes)
      ensures unchanged(regs)
    {
      row := [];
      var m := 0;
      while m < NumMeasurements
        invariant 0 <= m <= NumMeasurements
        invariant |row| == m
        invariant forall j :: 0 <= j < m ==> row[j] == ReadPair(Kinds[j], outcomes[j], old(lastGood[d, j]))
        invariant forall i, j :: 0 <= i < lastGood.Length0 && 0 <= j < NumMeasurements ==>
          lastGood[i, j] == if i == d && j < m then row[j].value else old(lastGood[i, j])
        invariant failedCount == old(failedCount) + RowFailures(outcomes[..m])
        invariant unchanged(regs)
      {
        assert outcomes[..m + 1][..m] == outcomes[..m];
        var report: PairReport;
        match outcomes[m] {
          case Some(raw) =>
            var value := Scale(Kinds[m], raw);
            lastGood[d, m] := value;
            report := PairReport(value, true);
          case None =>
            // The reconnect attempt that follows has no effect on the values: its result is discarded.
            failedCount := failedCount + 1;
            report := PairReport(lastGood[d, m], false);
        }
        row := row + [report];
        m := m + 1;
      }
      assert outcomes[..m] == outcomes;
    }

    /**
     * The packing step: register 2i and 2i+1 receive the high and low word
     * of the i-th sum, and the trailing register the count, unmasked; all
     * registers are written in one call.
     */
    method UpdateModbusRegisters(sums: seq<int>, count: int)
      requires Valid() && |sums| == NumMeasurements
      modifies regs
      ensures Valid()
      ensures regs[..] == RegisterTable(sums, count)
    {
      var offset := 0;
      var i := 0;
      while i < |sums|
        invariant 0 <= i <= |sums| && offset == 2 * i
        invariant regs[..offset] == Words(sums[..i])
      {
        var total := sums[i];
        var low, high := Low(total), High(total);
        regs[offset], regs[offset + 1] := high, low;
        assert regs[..offset + 2] == regs[..offset] + [high, low];
        assert sums[..i + 1][..i] == sums[..i];
        offset := offset + 2;
        i := i + 1;
      }
      regs[offset] := count;
      assert sums[..i] == sums;
      assert regs[..] == regs[..offset] + [count];
    }

    /** One iteration of the main loop: read, aggregate, publish. */
    method Round(outcomes: seq<seq<Option<int>>>)
      requires Valid()
      requires IsGrid(outcomes) && |outcomes| == lastGood.Length0
      modifies this, lastGood, regs
      ensures Valid()
      ensures LastGood() == NextLastGood(outcomes, old(LastGood()))
      ensures failedCount == old(failedCount) + Failures(outcomes)
      ensures regs[..] == RoundTable(outcomes, old(LastGood()))
    {
      ghost var last0 := LastGood();
      var detailed := ReadMeasurementValues(outcomes);
      ghost var last1 := LastGood();
      var sums, count := AggregateValues(detailed);
      assert RegisterTable(sums, count) == RoundTable(outcomes, last0);
      UpdateModbusRegisters(sums, count);
      assert LastGood() == last1;
    }

    /**
     * A finite prefix of the main loop: the rounds run in order, each
     * starting from the last-known-good values the previous one left, and
     * the failure counter grows by the failures of every round.
     */
    method RunRounds(schedule: seq<seq<seq<Option<int>>>>)
      requires Valid()
      requires forall k :: 0 <= k < |schedule| ==> IsGrid(schedule[k]) && |schedule[k]| == lastGood.Length0
      modifies this, lastGood, regs
      ensures Valid()
      ensures LastGood() == LastGoodAfter(schedule, old(LastGood()))
      ensures failedCount == old(failedCount) + ScheduleFailures(schedule)
      ensures |schedule| > 0 ==>
        regs[..] == RoundTable(schedule[|schedule| - 1], LastGoodAfter(schedule[..|schedule| - 1], old(LastGood())))
      ensures |schedule| == 0 ==> regs[..] == old(regs[..])
    {
      ghost var last0 := LastGood();
      var k := 0;
      while k < |schedule|
        invariant 0 <= k <= |schedule|
        invariant LastGood() == LastGoodAfter(schedule[..k], last0)
        invariant failedCount == old(failedCount) + ScheduleFailures(schedule[..k])
        invariant k > 0 ==> regs[..] == RoundTable(schedule[k - 1], LastGoodAfter(schedule[..k - 1], last0))
        invariant k == 0 ==> regs[..] == old(regs[..])
      {
        assert schedule[..k + 1][..k] == schedule[..k];
        Round(schedule[k]);
        k := k + 1;
      }
      assert schedule[..k] == schedule;
    }
  }
}
