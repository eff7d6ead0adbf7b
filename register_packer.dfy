/**
 * The register layout: each measurement sum becomes a high and a low 16-bit
 * word, followed by the valid-readings word. The imperative writer is
 * `PollLoop.PollEngine.UpdateModbusRegisters`.
 */
module RegisterPacker {

  /** 2^16: one holding register. */
  const WordModulus: int := 0x1_0000
  /** 2^32: the range of a two-register value. */
  const PairModulus: int := 0x1_0000_0000

  /** `total & 0xFFFF` on an unbounded integer, negative ones included. */
  function Low(total: int): (r: int)
    ensures 0 <= r < WordModulus && (total - r) % WordModulus == 0
  {
    total % WordModulus
  }

  /** `(total >> 16) & 0xFFFF` on an unbounded integer; `>>` floors, as `/` does for a positive divisor. */
  function High(total: int): (r: int)
    ensures 0 <= r < WordModulus
    ensures (total - Low(total) - WordModulus * r) % PairModulus == 0
  {
    (total / WordModulus) % WordModulus
  }

  /** How a consumer reads a high/low pair back: `(high << 16) | low`. */
  function Unpack(high: int, low: int): int
  {
    high * WordModulus + low
  }

  /** The measurement words of the table, two per sum, in order. */
  function Words(sums: seq<int>): (r: seq<int>)
    ensures |r| == 2 * |sums|
  {
    if |sums| == 0 then [] else Words(sums[..|sums| - 1]) + [High(sums[|sums| - 1]), Low(sums[|sums| - 1])]
  }

  /** The whole holding-register table written by one round. */
  function RegisterTable(sums: seq<int>, count: int): (r: seq<int>)
    ensures |r| == 2 * |sums| + 1
  {
    Words(sums) + [count]
  }

  /**
   * Both words are 16-bit, and together they give the sum modulo 2^32,
   * so a sum in the unsigned 32-bit range is reconstructed exactly.
   */
  lemma PackRoundTrip(total: int)
    ensures 0 <= High(total) < WordModulus && 0 <= Low(total) < WordModulus
    ensures Unpack(High(total), Low(total)) == total % PairModulus
    ensures 0 <= total < PairModulus ==> Unpack(High(total), Low(total)) == total
  {
  }

  lemma PackExample()
    ensures High(0x1_8000) == 1 && Low(0x1_8000) == 0x8000
    ensures High(-1) == 0xFFFF && Low(-1) == 0xFFFF
  {
  }

  /**
   * The layout of the table: for the sum at position i, register 2i holds
   * its high word and register 2i+1 its low word; the trailing register
   * holds the count, as given.
   */
  lemma {:induction false} RegisterLayout(sums: seq<int>, count: int, i: nat)
    requires i < |sums|
    ensures RegisterTable(sums, count)[2 * i] == High(sums[i])
    ensures RegisterTable(sums, count)[2 * i + 1] == Low(sums[i])
    ensures RegisterTable(sums, count)[2 * |sums|] == count
  {
    WordsAt(sums, i);
  }

  lemma {:induction false} WordsAt(sums: seq<int>, i: nat)
    requires i < |sums|
    ensures Words(sums)[2 * i] == High(sums[i]) && Words(sums)[2 * i + 1] == Low(sums[i])
  {
    var n := |sums|;
    if i < n - 1 {
      WordsAt(sums[..n - 1], i);
    }
  }

  /** Every register of the table fits 16 bits when the count does. */
  lemma RegisterWordsFit(sums: seq<int>, count: int)
    requires 0 <= count < WordModulus
    ensures forall k :: 0 <= k < |RegisterTable(sums, count)| ==> 0 <= RegisterTable(sums, count)[k] < WordModulus
  {
    var t := RegisterTable(sums, count);
    forall k | 0 <= k < |t|
      ensures 0 <= t[k] < WordModulus
    {
      if k < 2 * |sums| {
        var i := k / 2;
        RegisterLayout(sums, count, i);
        PackRoundTrip(sums[i]);
        assert k == 2 * i || k == 2 * i + 1;
      }
    }
  }

  /** A consumer that reads registers 2i and 2i+1 back gets the i-th sum modulo 2^32. */
  lemma RegisterUnpack(sums: seq<int>, count: int, i: nat)
    requires i < |sums|
    ensures Unpack(RegisterTable(sums, count)[2 * i], RegisterTable(sums, count)[2 * i + 1]) == sums[i] % PairModulus
  {
    RegisterLayout(sums, count, i);
    PackRoundTrip(sums[i]);
  }
}
