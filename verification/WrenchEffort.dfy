/** How a joystick report becomes a wrench effort (sendWrenchEffort in src/jaus/JausClientImpl.cpp). */
module WrenchEffort {
  import opened Bytes
  import opened Crc16
  import opened Report

  /** The six propulsive efforts of a SetWrenchEffort message, in percent; the resistive ones are disabled. */
  datatype Effort = Effort(
    linearX: real, linearY: real, linearZ: real,
    rotationalX: real, rotationalY: real, rotationalZ: real)

  const MAX_RAW: int := 2047

  /** The 16 bits of axis i: left X, Y, Z, then right X, Y, Z. */
  function Axis(report: Combined, i: nat): uint16
    requires i < 6
  {
    Word(report[4 + 2 * i], report[5 + 2 * i])
  }

  /** The lowest 12 bits of an axis as a signed number. */
  function AxisData(axis: uint16): (x: int)
    ensures -2048 <= x <= 2047
  {
    var low := axis % 0x1000;
    if low >= 0x800 then low - 0x1000 else low
  }

  function Clamped(x: int): (y: int)
    ensures -MAX_RAW <= y <= MAX_RAW
  {
    if x < -MAX_RAW then -MAX_RAW else if x > MAX_RAW then MAX_RAW else x
  }

  /** normalizeJoysticValue, over the reals. */
  function Normalized(x: int): real {
    var scale := (100.0 - -100.0) / (MAX_RAW - -MAX_RAW) as real;
    Clamped(x) as real * scale
  }

  function EffortOf(report: Combined): Effort {
    Effort(Normalized(AxisData(Axis(report, 0))), Normalized(AxisData(Axis(report, 1))),
           Normalized(AxisData(Axis(report, 2))), Normalized(AxisData(Axis(report, 3))),
           Normalized(AxisData(Axis(report, 4))), Normalized(AxisData(Axis(report, 5))))
  }

  /**
   * Efforts stay within 100 percent, are odd and strictly increasing in the clamped
   * stick, and reach 100 exactly at its end.
   */
  lemma NormalizedScales(x: int, y: int)
    ensures -100.0 <= Normalized(x) <= 100.0
    ensures Normalized(-x) == -Normalized(x)
    ensures Normalized(x) < Normalized(y) <==> Clamped(x) < Clamped(y)
    ensures Normalized(x) == 100.0 <==> x >= MAX_RAW
  {
    var scale := 200.0 / 4094.0;
    assert Normalized(x) == Clamped(x) as real * scale;
    assert Clamped(-x) == -Clamped(x);
  }

  /**
   * Two reports ask for the same effort exactly when all six sticks, cut at 2047,
   * agree; flags, keypad and CRC fields play no part.
   */
  lemma EffortIsSticks(r: Combined, s: Combined)
    ensures EffortOf(r) == EffortOf(s)
        <==> forall i :: 0 <= i < 6 ==> Clamped(AxisData(Axis(r, i))) == Clamped(AxisData(Axis(s, i)))
  {
    hide Axis, AxisData, Clamped, Normalized;
    forall i: nat | i < 6
      ensures Normalized(AxisData(Axis(r, i))) == Normalized(AxisData(Axis(s, i)))
          <==> Clamped(AxisData(Axis(r, i))) == Clamped(AxisData(Axis(s, i)))
    {
      var x, y := AxisData(Axis(r, i)), AxisData(Axis(s, i));
      NormalizedScales(x, y);
      NormalizedScales(y, x);
    }
  }

  /** The signed number in the lowest 12 bits of two bytes, least significant first, kept within 2047 of zero. */
  function Stick(low: byte, high: byte): (x: int)
    ensures -2047 <= x <= 2047
  {
    var bits := low as int + 0x100 * (high % 0x10);
    var signed := if bits >= 2048 then bits - 4096 else bits;
    if signed == -2048 then -2047 else signed
  }

  lemma LowBits(low: byte, high: byte)
    ensures Word(low, high) % 0x1000 == low as int + 0x100 * (high % 0x10)
  {
    var word := low as int + 0x100 * (high as int);
    assert Word(low, high) == word;
    assert word == 0x1000 * (high / 0x10) + (low as int + 0x100 * (high % 0x10));
  }

  lemma StickOfAxis(low: byte, high: byte)
    ensures Clamped(AxisData(Word(low, high))) == Stick(low, high)
    ensures Normalized(AxisData(Word(low, high))) * 2047.0 == 100.0 * Stick(low, high) as real
  {
    LowBits(low, high);
    hide Word;
    var x := Stick(low, high);
    assert Clamped(AxisData(Word(low, high))) == x;
    hide AxisData, Clamped, Stick;
    assert Normalized(AxisData(Word(low, high))) == x as real * (200.0 / 4094.0);
  }

  /**
   * Each effort is its own stick's, and in proportion to it: left X, Y and Z, in
   * bytes 4 to 9 of the report, are the linear efforts, right X, Y and Z, in bytes
   * 10 to 15, the rotational ones. 2047 and beyond is 100 percent.
   */
  lemma EffortAxes(r: Combined)
    ensures EffortOf(r).linearX * 2047.0 == 100.0 * Stick(r[4], r[5]) as real
    ensures EffortOf(r).linearY * 2047.0 == 100.0 * Stick(r[6], r[7]) as real
    ensures EffortOf(r).linearZ * 2047.0 == 100.0 * Stick(r[8], r[9]) as real
    ensures EffortOf(r).rotationalX * 2047.0 == 100.0 * Stick(r[10], r[11]) as real
    ensures EffortOf(r).rotationalY * 2047.0 == 100.0 * Stick(r[12], r[13]) as real
    ensures EffortOf(r).rotationalZ * 2047.0 == 100.0 * Stick(r[14], r[15]) as real
  {
    hide Normalized, AxisData, Word, Stick;
    StickOfAxis(r[4], r[5]);
    StickOfAxis(r[6], r[7]);
    StickOfAxis(r[8], r[9]);
    StickOfAxis(r[10], r[11]);
    StickOfAxis(r[12], r[13]);
    StickOfAxis(r[14], r[15]);
  }

  /**
   * What that means for one axis of two reports: the effort grows exactly with the
   * stick, and full stick is full effort.
   */
  lemma EffortGrows(x: real, y: real, a: int, b: int)
    requires x * 2047.0 == 100.0 * a as real && y * 2047.0 == 100.0 * b as real
    ensures x < y <==> a < b
    ensures x == y <==> a == b
    ensures x == 100.0 <==> a == 2047
    ensures x == -100.0 <==> a == -2047
  {
  }

  /** Two reports order each of the six efforts as their own bytes order its stick. */
  lemma EffortsFollowSticks(r: Combined, s: Combined)
    ensures EffortOf(r).linearX < EffortOf(s).linearX <==> Stick(r[4], r[5]) < Stick(s[4], s[5])
    ensures EffortOf(r).linearY < EffortOf(s).linearY <==> Stick(r[6], r[7]) < Stick(s[6], s[7])
    ensures EffortOf(r).linearZ < EffortOf(s).linearZ <==> Stick(r[8], r[9]) < Stick(s[8], s[9])
    ensures EffortOf(r).rotationalX < EffortOf(s).rotationalX <==> Stick(r[10], r[11]) < Stick(s[10], s[11])
    ensures EffortOf(r).rotationalY < EffortOf(s).rotationalY <==> Stick(r[12], r[13]) < Stick(s[12], s[13])
    ensures EffortOf(r).rotationalZ < EffortOf(s).rotationalZ <==> Stick(r[14], r[15]) < Stick(s[14], s[15])
    ensures EffortOf(r).linearX == 100.0 <==> Stick(r[4], r[5]) == 2047
    ensures EffortOf(r).linearY == 100.0 <==> Stick(r[6], r[7]) == 2047
    ensures EffortOf(r).linearZ == 100.0 <==> Stick(r[8], r[9]) == 2047
    ensures EffortOf(r).rotationalX == 100.0 <==> Stick(r[10], r[11]) == 2047
    ensures EffortOf(r).rotationalY == 100.0 <==> Stick(r[12], r[13]) == 2047
    ensures EffortOf(r).rotationalZ == 100.0 <==> Stick(r[14], r[15]) == 2047
  {
    EffortAxes(r);
    EffortAxes(s);
    hide EffortOf, Stick;
    var e, f := EffortOf(r), EffortOf(s);
    EffortGrows(e.linearX, f.linearX, Stick(r[4], r[5]), Stick(s[4], s[5]));
    EffortGrows(e.linearY, f.linearY, Stick(r[6], r[7]), Stick(s[6], s[7]));
    EffortGrows(e.linearZ, f.linearZ, Stick(r[8], r[9]), Stick(s[8], s[9]));
    EffortGrows(e.rotationalX, f.rotationalX, Stick(r[10], r[11]), Stick(s[10], s[11]));
    EffortGrows(e.rotationalY, f.rotationalY, Stick(r[12], r[13]), Stick(s[12], s[13]));
    EffortGrows(e.rotationalZ, f.rotationalZ, Stick(r[14], r[15]), Stick(s[14], s[15]));
  }
}
