/**
 * The aggregation step: per-measurement sums over all devices and the
 * number of fresh (device, measurement) pairs of one round.
 */
module Aggregation {
  import opened Wrappers
  import opened Measurements
  import opened ReadingEngine

  /** The sum of column `m` over all rows of `grid`, starting from 0 with no row excluded. */
  function Total(grid: seq<seq<int>>, m: nat): int
    requires forall d :: 0 <= d < |grid| ==> m < |grid[d]|
  {
    if |grid| == 0 then 0 else Total(grid[..|grid| - 1], m) + grid[|grid| - 1][m]
  }

  /** The per-measurement sums of a table of values, in declaration order. */
  function Sums(grid: seq<seq<int>>): (r: seq<int>)
    requires IsGrid(grid)
    ensures |r| == NumMeasurements
  {
    seq(NumMeasurements, m requires 0 <= m < NumMeasurements => Total(grid, m))
  }

  /** The number of fresh pairs in one device's row. */
  function RowFresh(row: seq<PairReport>): (r: nat)
    ensures r == 0 <==> forall m :: 0 <= m < |row| ==> !row[m].updated
  {
    if |row| == 0 then 0 else RowFresh(row[..|row| - 1]) + (if row[|row| - 1].updated then 1 else 0)
  }

  /** The number of fresh pairs in a round report. */
  function FreshCount(reports: seq<seq<PairReport>>): (r: nat)
    ensures r == 0 <==> forall d, m :: 0 <= d < |reports| && 0 <= m < |reports[d]| ==> !reports[d][m].updated
  {
    if |reports| == 0 then 0 else FreshCount(reports[..|reports| - 1]) + RowFresh(reports[|reports| - 1])
  }

  /**
   * Sums every measurement over all devices and counts the fresh pairs,
   * walking the report device by device and measurement by measurement.
   */
  method AggregateValues(detailed: seq<seq<PairReport>>) returns (sums: seq<int>, count: nat)
    requires IsGrid(detailed)
    ensures sums == Sums(Values(detailed))
    ensures count == FreshCount(detailed)
  {
    ghost var vals := Values(detailed);
    sums := seq(NumMeasurements, _ => 0);
    count := 0;
    var d := 0;
    while d < |detailed|
      invariant 0 <= d <= |detailed|
      invariant |sums| == NumMeasurements
      invariant forall j :: 0 <= j < NumMeasurements ==> sums[j] == Total(vals[..d], j)
      invariant count == FreshCount(detailed[..d])
    {
      assert vals[..d + 1][..d] == vals[..d];
      assert detailed[..d + 1][..d] == detailed[..d];
      var added;
      sums, added := AccumulateDevice(sums, detailed[d]);
      count := count + added;
      d := d + 1;
    }
    assert vals[..d] == vals && detailed[..d] == detailed;
  }

  /**
   * The inner loop of the aggregation for one device: each of its values
   * is added to its measurement's running sum, and its fresh pairs are
   * counted.
   */
  method AccumulateDevice(sums: seq<int>, row: seq<PairReport>) returns (next: seq<int>, added: nat)
    requires |sums| == NumMeasurements && |row| == NumMeasurements
    ensures |next| == NumMeasurements
    ensures forall j :: 0 <= j < NumMeasurements ==> next[j] == sums[j] + row[j].value
    ensures added == RowFresh(row)
  {
    next := sums;
    added := 0;
    var m := 0;
    while m < NumMeasurements
      invariant 0 <= m <= NumMeasurements
      invariant |next| == NumMeasurements
      invariant forall j :: 0 <= j < m ==> next[j] == sums[j] + row[j].value
      invariant forall j :: m <= j < NumMeasurements ==> next[j] == sums[j]
      invariant added == RowFresh(row[..m])
    {
      assert row[..m + 1][..m] == row[..m];
      next := next[m := next[m] + row[m].value];
      if row[m].updated {
        added := added + 1;
      }
      m := m + 1;
    }
    assert row[..m] == row;
  }

  /** A row never has more fresh pairs than entries. */
  lemma {:induction false} RowFreshBound(row: seq<PairReport>)
    ensures RowFresh(row) <= |row|
  {
    if |row| > 0 {
      RowFreshBound(row[..|row| - 1]);
    }
  }

  /** The valid-readings count is at most devices times measurements. */
  lemma {:induction false} FreshCountBound(reports: seq<seq<PairReport>>)
    requires IsGrid(reports)
    ensures FreshCount(reports) <= |reports| * NumMeasurements
  {
    if |reports| > 0 {
      var n := |reports|;
      FreshCountBound(reports[..n - 1]);
      RowFreshBound(reports[n - 1]);
    }
  }

  /** In one row, the fresh pairs and the failed reads together account for every measurement. */
  lemma {:induction false} RowFreshPlusFailures(outcomes: seq<seq<Option<int>>>, last: seq<seq<int>>, d: nat, k: nat)
    requires IsGrid(outcomes) && IsGrid(last) && |last| == |outcomes|
    requires d < |outcomes| && k <= NumMeasurements
    ensures RowFresh(ReadRound(outcomes, last)[d][..k]) + RowFailures(outcomes[d][..k]) == k
  {
    if k > 0 {
      RowFreshPlusFailures(outcomes, last, d, k - 1);
      assert ReadRound(outcomes, last)[d][..k][..k - 1] == ReadRound(outcomes, last)[d][..k - 1];
      assert outcomes[d][..k][..k - 1] == outcomes[d][..k - 1];
    }
  }

  /**
   * Every pair of a round is either fresh or counted as a failure: the
   * valid-readings count and the failures of the round add up to devices
   * times measurements.
   */
  lemma {:induction false} FreshPlusFailures(outcomes: seq<seq<Option<int>>>, last: seq<seq<int>>)
    requires IsGrid(outcomes) && IsGrid(last) && |last| == |outcomes|
    ensures FreshCount(ReadRound(outcomes, last)) + Failures(outcomes) == |outcomes| * NumMeasurements
  {
    if |outcomes| > 0 {
      var n := |outcomes|;
      var o', l' := outcomes[..n - 1], last[..n - 1];
      FreshPlusFailures(o', l');
      assert ReadRound(outcomes, last)[..n - 1] == ReadRound(o', l');
      RowFreshPlusFailures(outcomes, last, n - 1, NumMeasurements);
      assert ReadRound(outcomes, last)[n - 1][..NumMeasurements] == ReadRound(outcomes, last)[n - 1];
      assert outcomes[n - 1][..NumMeasurements] == outcomes[n - 1];
    }
  }

  /** A round of failed reads has no fresh pair and sums exactly the last-known-good values. */
  lemma AllFailedSums(outcomes: seq<seq<Option<int>>>, last: seq<seq<int>>)
    requires IsGrid(outcomes) && IsGrid(last) && |last| == |outcomes|
    requires forall d, m :: 0 <= d < |outcomes| && 0 <= m < NumMeasurements ==> outcomes[d][m].None?
    ensures Sums(Values(ReadRound(outcomes, last))) == Sums(last)
    ensures FreshCount(ReadRound(outcomes, last)) == 0
  {
    AllFailedRound(outcomes, last);
    FreshPlusFailures(outcomes, last);
  }

  /**
   * Idempotence across rounds: when every read of a round fails, it
   * reproduces the previous round's sums exactly.
   */
  lemma AllFailedRepeatsPreviousSums(previous: seq<seq<Option<int>>>, outcomes: seq<seq<Option<int>>>, last: seq<seq<int>>)
    requires IsGrid(previous) && IsGrid(last) && |last| == |previous|
    requires IsGrid(outcomes) && |outcomes| == |previous|
    requires forall d, m :: 0 <= d < |outcomes| && 0 <= m < NumMeasurements ==> outcomes[d][m].None?
    ensures Sums(Values(ReadRound(outcomes, NextLastGood(previous, last)))) == Sums(Values(ReadRound(previous, last)))
  {
    AllFailedSums(outcomes, NextLastGood(previous, last));
    LastGoodFollowsReport(previous, last);
  }
}
