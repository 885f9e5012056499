/** ltc6803_rdcv: twelve 12-bit readings in eighteen bytes, two readings in every three bytes. */
module Cells {
  import opened Common

  type Reading = r: int | 0 <= r < 4096

  const CELLS: nat := 12

  /** Reading k of the bytes: the even ones take a byte and the low half of the next, the odd ones
      the high half of that and the byte after it. */
  function ReadingAt(rx: seq<Byte>, k: nat): Reading
    requires |rx| >= 18 && k < CELLS
  {
    var b := 3 * (k / 2);
    if k % 2 == 0 then rx[b] + 256 * (rx[b + 1] % 16) else rx[b + 1] / 16 + 16 * rx[b + 2] as int
  }

  /** The voltage of a reading, in steps of 1.5 mV from 512 on. */
  function Volts(r: Reading): real {
    (r - 512) as real * 1.5 / 1000.0
  }

  /** The bytes of a pair of readings, and the two voltages in millivolts: 1.5 for each step, from
      512 on. */
  lemma PairOfVolts(rx: seq<Byte>, h: nat)
    requires |rx| >= 18 && h < 6
    ensures Volts(ReadingAt(rx, 2 * h)) * 1000.0
            == 1.5 * (rx[3 * h] as int + 256 * (rx[3 * h + 1] as int % 16) - 512) as real
    ensures Volts(ReadingAt(rx, 2 * h + 1)) * 1000.0
            == 1.5 * (rx[3 * h + 1] as int / 16 + 16 * rx[3 * h + 2] as int - 512) as real
  {
    assert (2 * h) / 2 == h && (2 * h + 1) / 2 == h;
  }

  /** What the chip sends for n steps of 1.5 mV is that voltage again. */
  lemma VoltsOfSteps(n: seq<nat>, k: nat)
    requires |n| == CELLS && k < CELLS && forall i :: 0 <= i < CELLS ==> n[i] < 3584
    ensures Volts(ReadingAt(Packed(Steps(n)), k)) * 2000.0 == 3.0 * n[k] as real
  {
    PackedReading(Steps(n), k);
  }

  /** The readings for n steps of 1.5 mV. */
  function Steps(n: seq<nat>): seq<Reading>
    requires |n| == CELLS && forall i :: 0 <= i < CELLS ==> n[i] < 3584
  {
    seq(CELLS, k requires 0 <= k < CELLS => 512 + n[k])
  }

  /** The unpacking loop of ltc6803_rdcv. */
  method Unpack(rx: seq<Byte>, cells: array<real>)
    requires |rx| >= 18 && cells.Length == CELLS
    modifies cells
    ensures forall k: nat :: k < CELLS ==> cells[k] == Volts(ReadingAt(rx, k))
    ensures forall h: nat :: h < 6 ==>
              cells[2 * h] * 1000.0 == 1.5 * (rx[3 * h] as int + 256 * (rx[3 * h + 1] as int % 16) - 512) as real
    ensures forall h: nat :: h < 6 ==>
              cells[2 * h + 1] * 1000.0 == 1.5 * (rx[3 * h + 1] as int / 16 + 16 * rx[3 * h + 2] as int - 512) as real
    ensures forall n: seq<nat> :: |n| == CELLS && (forall i :: 0 <= i < CELLS ==> n[i] < 3584) && rx == Packed(Steps(n))
              ==> forall k :: 0 <= k < CELLS ==> cells[k] * 2000.0 == 3.0 * n[k] as real
  {
    var dataCounter := 0;
    var k := 0;
    while k < CELLS
      invariant 0 <= k <= CELLS && k % 2 == 0 && dataCounter == 3 * (k / 2)
      invariant forall j: nat :: j < k ==> cells[j] == Volts(ReadingAt(rx, j))
    {
      var temp: int := rx[dataCounter];
      dataCounter := dataCounter + 1;
      var temp2: int := (rx[dataCounter] as int % 16) * 256;
      cells[k] := (temp + temp2 - 512) as real * 1.5 / 1000.0;
      temp2 := rx[dataCounter] / 16;
      dataCounter := dataCounter + 1;
      temp := rx[dataCounter] as int * 16;
      dataCounter := dataCounter + 1;
      cells[k + 1] := (temp + temp2 - 512) as real * 1.5 / 1000.0;
      k := k + 2;
    }
    forall h: nat | h < 6
      ensures cells[2 * h] * 1000.0 == 1.5 * (rx[3 * h] as int + 256 * (rx[3 * h + 1] as int % 16) - 512) as real
      ensures cells[2 * h + 1] * 1000.0 == 1.5 * (rx[3 * h + 1] as int / 16 + 16 * rx[3 * h + 2] as int - 512) as real
    {
      PairOfVolts(rx, h);
    }
    forall n: seq<nat>, k | |n| == CELLS && (forall i :: 0 <= i < CELLS ==> n[i] < 3584) && rx == Packed(Steps(n))
                            && 0 <= k < CELLS
      ensures cells[k] * 2000.0 == 3.0 * n[k] as real
    {
      VoltsOfSteps(n, k);
    }
  }

  /** How the chip packs its readings. */
  function Packed(readings: seq<Reading>): seq<Byte>
    requires |readings| == CELLS
  {
    seq(18, i requires 0 <= i < 18 =>
      var even, odd := readings[2 * (i / 3)], readings[2 * (i / 3) + 1];
      if i % 3 == 0 then even % 256 else if i % 3 == 1 then even / 256 + 16 * (odd % 16) else odd / 16)
  }

  lemma PackedReading(readings: seq<Reading>, k: nat)
    requires |readings| == CELLS && k < CELLS
    ensures ReadingAt(Packed(readings), k) == readings[k]
  {
    var h := k / 2;
    var even, odd := readings[2 * h], readings[2 * h + 1];
    PackedBytes(readings, h);
    TwoReadings(even, odd);
    assert k == 2 * h || k == 2 * h + 1;
  }

  lemma PackedBytes(readings: seq<Reading>, h: nat)
    requires |readings| == CELLS && h < 6
    ensures var rx, even, odd := Packed(readings), readings[2 * h], readings[2 * h + 1];
            && rx[3 * h] == even % 256 && rx[3 * h + 1] == even / 256 + 16 * (odd % 16) && rx[3 * h + 2] == odd / 16
  {
    assert (3 * h) / 3 == h && (3 * h + 1) / 3 == h && (3 * h + 2) / 3 == h;
    assert (3 * h) % 3 == 0 && (3 * h + 1) % 3 == 1 && (3 * h + 2) % 3 == 2;
  }

  lemma TwoReadings(even: Reading, odd: Reading)
    ensures var middle := even / 256 + 16 * (odd % 16);
            even % 256 + 256 * (middle % 16) == even && middle / 16 + 16 * (odd / 16) == odd
  {
  }

  lemma ThreeBytes(b0: Byte, b1: Byte, b2: Byte)
    ensures var even, odd := b0 + 256 * (b1 as int % 16), b1 / 16 + 16 * b2 as int;
            even % 256 == b0 && even / 256 + 16 * (odd % 16) == b1 && odd / 16 == b2
  {
  }

  lemma UnpackedByte(rx: seq<Byte>, i: nat)
    requires |rx| == 18 && i < 18
    ensures Packed(seq(CELLS, k requires 0 <= k < CELLS => ReadingAt(rx, k)))[i] == rx[i]
  {
    var h := i / 3;
    assert (2 * h) / 2 == h && (2 * h + 1) / 2 == h && (2 * h) % 2 == 0 && (2 * h + 1) % 2 == 1;
    ThreeBytes(rx[3 * h], rx[3 * h + 1], rx[3 * h + 2]);
  }

  /** Unpacking inverts packing and packing inverts unpacking: no bit is lost or read twice. */
  lemma UnpackInvertsPack(readings: seq<Reading>, rx: seq<Byte>)
    requires |readings| == CELLS && |rx| == 18
    ensures seq(CELLS, k requires 0 <= k < CELLS => ReadingAt(rx, k)) == readings <==> rx == Packed(readings)
  {
    var unpacked := seq(CELLS, k requires 0 <= k < CELLS => ReadingAt(rx, k));
    if unpacked == readings {
      forall i: nat | i < 18 ensures Packed(readings)[i] == rx[i] {
        UnpackedByte(rx, i);
      }
    }
    if rx == Packed(readings) {
      forall k: nat | k < CELLS ensures unpacked[k] == readings[k] {
        PackedReading(readings, k);
      }
    }
  }
}
