/**
 * The fixed set of measurements read from every inverter, the register-count
 * constants derived from it, and the per-measurement scaling transform.
 */
module Measurements {

  /** The quantities read from each inverter. */
  datatype Measurement = ActivePower | AccumulatedEnergyYield

  /** Declaration order: it fixes the reading order and the output slot of each measurement. */
  const Kinds: seq<Measurement> := [ActivePower, AccumulatedEnergyYield]

  const NumMeasurements: nat := |Kinds|
  const MeasurementsRegisters: nat := NumMeasurements * 2
  /** Two words per measurement plus the trailing valid-readings word. */
  const TotalRegisterCount: nat := MeasurementsRegisters + 1

  /** A table indexed by device, then by measurement position, with one entry per measurement. */
  predicate IsGrid<T>(grid: seq<seq<T>>)
  {
    forall d :: 0 <= d < |grid| ==> |grid[d]| == NumMeasurements
  }

  /** Division by 100 truncating toward zero, as `int(value / 100)` does. */
  function TruncDiv100(raw: int): (r: int)
    ensures raw >= 0 ==> 0 <= 100 * r <= raw < 100 * r + 100
    ensures raw < 0 ==> 100 * r - 100 < raw <= 100 * r <= 0
  {
    if raw >= 0 then raw / 100 else -((-raw) / 100)
  }

  /** The value recorded for a successful raw reading: the energy yield is converted to kWh, power is kept. */
  function Scale(kind: Measurement, raw: int): (r: int)
    ensures kind == ActivePower ==> r == raw
    ensures kind == AccumulatedEnergyYield && raw >= 0 ==> 0 <= raw - 100 * r < 100
    ensures kind == AccumulatedEnergyYield && raw < 0 ==> -100 < raw - 100 * r <= 0
  {
    match kind
    case ActivePower => raw
    case AccumulatedEnergyYield => TruncDiv100(raw)
  }

  lemma ScaleExamples()
    ensures Scale(AccumulatedEnergyYield, 12345) == 123
    ensures Scale(AccumulatedEnergyYield, 99) == 0
    ensures Scale(AccumulatedEnergyYield, -150) == -1
    ensures Scale(ActivePower, -150) == -150
  {
  }
}
