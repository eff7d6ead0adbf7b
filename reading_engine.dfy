/**
 * The reading step of one polling round, as specification functions over
 * values: what every (device, measurement) pair reports and what the
 * last-known-good table becomes. The imperative step that walks the devices
 * and mutates the table is `PollLoop.PollEngine.ReadMeasurementValues`.
 */
module ReadingEngine {
  import opened Wrappers
  import opened Measurements

  /** What one pair reports for a round: the chosen value and whether it was freshly read. */
  datatype PairReport = PairReport(value: int, updated: bool)

  /** One pair: a successful read is scaled and fresh; a failed read falls back to the last-known-good value. */
  function ReadPair(kind: Measurement, outcome: Option<int>, last: int): PairReport
  {
    match outcome
    case Some(raw) => PairReport(Scale(kind, raw), true)
    case None => PairReport(last, false)
  }

  /** The report of a whole round: one entry per device and measurement, each decided on its own. */
  function ReadRound(outcomes: seq<seq<Option<int>>>, last: seq<seq<int>>): (r: seq<seq<PairReport>>)
    requires IsGrid(outcomes) && IsGrid(last) && |last| == |outcomes|
    ensures |r| == |outcomes| && IsGrid(r)
  {
    seq(|outcomes|, d requires 0 <= d < |outcomes| =>
      seq(NumMeasurements, m requires 0 <= m < NumMeasurements =>
        ReadPair(Kinds[m], outcomes[d][m], last[d][m])))
  }

  /** The last-known-good table after a round: only successfully read entries are overwritten. */
  function NextLastGood(outcomes: seq<seq<Option<int>>>, last: seq<seq<int>>): (r: seq<seq<int>>)
    requires IsGrid(outcomes) && IsGrid(last) && |last| == |outcomes|
    ensures |r| == |outcomes| && IsGrid(r)
  {
    seq(|outcomes|, d requires 0 <= d < |outcomes| =>
      seq(NumMeasurements, m requires 0 <= m < NumMeasurements =>
        if outcomes[d][m].Some? then Scale(Kinds[m], outcomes[d][m].value) else last[d][m]))
  }

  /** The chosen values of a round report. */
  function Values(reports: seq<seq<PairReport>>): (r: seq<seq<int>>)
    ensures |r| == |reports|
    ensures forall d :: 0 <= d < |r| ==> |r[d]| == |reports[d]|
  {
    seq(|reports|, d requires 0 <= d < |reports| =>
      seq(|reports[d]|, m requires 0 <= m < |reports[d]| => reports[d][m].value))
  }

  /** The number of failed reads in one device's row of outcomes. */
  function RowFailures(row: seq<Option<int>>): nat
  {
    if |row| == 0 then 0
    else RowFailures(row[..|row| - 1]) + (if row[|row| - 1].None? then 1 else 0)
  }

  /** The number of failed reads in a round. */
  function Failures(outcomes: seq<seq<Option<int>>>): nat
  {
    if |outcomes| == 0 then 0
    else Failures(outcomes[..|outcomes| - 1]) + RowFailures(outcomes[|outcomes| - 1])
  }

  /** Every failed read of a row is counted once: the count is at most the row's length. */
  lemma {:induction false} RowFailuresBound(row: seq<Option<int>>)
    ensures RowFailures(row) <= |row|
    ensures RowFailures(row) == 0 <==> forall m :: 0 <= m < |row| ==> row[m].Some?
    ensures RowFailures(row) == |row| <==> forall m :: 0 <= m < |row| ==> row[m].None?
  {
    if |row| > 0 {
      var init := row[..|row| - 1];
      RowFailuresBound(init);
      assert forall m :: 0 <= m < |init| ==> init[m] == row[m];
    }
  }

  /**
   * A reported value is either the freshly read and scaled value or the
   * last-known-good one, never anything else; it is fresh exactly when the
   * read succeeded.
   */
  lemma ReportIsFreshOrFallback(outcomes: seq<seq<Option<int>>>, last: seq<seq<int>>, d: nat, m: nat)
    requires IsGrid(outcomes) && IsGrid(last) && |last| == |outcomes|
    requires d < |outcomes| && m < NumMeasurements
    ensures ReadRound(outcomes, last)[d][m].updated <==> outcomes[d][m].Some?
    ensures outcomes[d][m].Some? ==> ReadRound(outcomes, last)[d][m].value == Scale(Kinds[m], outcomes[d][m].value)
    ensures outcomes[d][m].None? ==> ReadRound(outcomes, last)[d][m].value == last[d][m]
  {
  }

  /**
   * After a round the last-known-good table holds exactly the values the
   * round reported, and an entry differs from before only if it was read
   * successfully.
   */
  lemma LastGoodFollowsReport(outcomes: seq<seq<Option<int>>>, last: seq<seq<int>>)
    requires IsGrid(outcomes) && IsGrid(last) && |last| == |outcomes|
    ensures NextLastGood(outcomes, last) == Values(ReadRound(outcomes, last))
    ensures forall d, m :: 0 <= d < |outcomes| && 0 <= m < NumMeasurements && outcomes[d][m].None? ==>
      NextLastGood(outcomes, last)[d][m] == last[d][m]
  {
    var next, vals := NextLastGood(outcomes, last), Values(ReadRound(outcomes, last));
    assert forall d :: 0 <= d < |outcomes| ==> next[d] == vals[d];
  }

  /**
   * Failure is isolated per pair: what a pair reports and records depends
   * only on its own outcome and its own last-known-good value, whatever
   * happened to every other pair.
   */
  lemma PairIsolation(outcomes: seq<seq<Option<int>>>, outcomes': seq<seq<Option<int>>>,
                      last: seq<seq<int>>, last': seq<seq<int>>, d: nat, m: nat)
    requires IsGrid(outcomes) && IsGrid(last) && |last| == |outcomes|
    requires IsGrid(outcomes') && IsGrid(last') && |last'| == |outcomes'|
    requires d < |outcomes| && d < |outcomes'| && m < NumMeasurements
    requires outcomes[d][m] == outcomes'[d][m] && last[d][m] == last'[d][m]
    ensures ReadRound(outcomes, last)[d][m] == ReadRound(outcomes', last')[d][m]
    ensures NextLastGood(outcomes, last)[d][m] == NextLastGood(outcomes', last')[d][m]
  {
  }

  /** A round in which every read fails reports every last-known-good value as stale and records nothing. */
  lemma {:induction false} AllFailedRound(outcomes: seq<seq<Option<int>>>, last: seq<seq<int>>)
    requires IsGrid(outcomes) && IsGrid(last) && |last| == |outcomes|
    requires forall d, m :: 0 <= d < |outcomes| && 0 <= m < NumMeasurements ==> outcomes[d][m].None?
    ensures Values(ReadRound(outcomes, last)) == last
    ensures NextLastGood(outcomes, last) == last
    ensures Failures(outcomes) == |outcomes| * NumMeasurements
  {
    var vals, next := Values(ReadRound(outcomes, last)), NextLastGood(outcomes, last);
    assert forall d :: 0 <= d < |outcomes| ==> vals[d] == last[d] && next[d] == last[d];
    AllFailedCount(outcomes);
  }

  lemma {:induction false} AllFailedCount(outcomes: seq<seq<Option<int>>>)
    requires IsGrid(outcomes)
    requires forall d, m :: 0 <= d < |outcomes| && 0 <= m < NumMeasurements ==> outcomes[d][m].None?
    ensures Failures(outcomes) == |outcomes| * NumMeasurements
  {
    if |outcomes| > 0 {
      var n := |outcomes|;
      AllFailedCount(outcomes[..n - 1]);
      RowFailuresBound(outcomes[n - 1]);
    }
  }
}
