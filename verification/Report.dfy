/** The combined joystick and keypad report and its acceptance (src/uart/FORTJoystick/FORTJoystickHelpers.cpp). */
module Report {
  import opened Bytes
  import opened Bits
  import opened Crc16

  /** sizeof(frc_combined_data_t): keypad block 4 bytes, joystick block 14 bytes, packed. */
  const SIZE: nat := 18

  type Combined = s: seq<byte> | |s| == SIZE witness seq(SIZE, i => 0)

  function ButtonStatus(r: Combined): uint16 { Word(r[0], r[1]) }

  function KeypadCrc(r: Combined): uint16 { Word(r[2], r[3]) }

  function LeftXAxis(r: Combined): uint16 { Word(r[4], r[5]) }

  function JoystickCrc(r: Combined): uint16 { Word(r[16], r[17]) }

  /** The dataOK flag is bit 12 of a calibrated axis. */
  predicate DataOk(axis: uint16) { axis / 0x1000 % 2 == 1 }

  predicate PausePressed(status: uint16) { status / 0x2 % 2 == 1 }

  predicate RDownPressed(status: uint16) { status / 0x80 % 2 == 1 }

  /** Both blocks, CRC fields included, have CRC zero. */
  predicate Accepts(data: seq<byte>) {
    |data| >= SIZE && Crc(data[0..4]) == 0 && Crc(data[4..SIZE]) == 0
  }

  method DecodeCombinedPayload(data: seq<byte>) returns (ok: bool)
    ensures ok <==> Accepts(data)
  {
    hide Crc;
    if |data| < SIZE {
      return false;
    }
    var payload: Combined := data[..SIZE];
    BlockResidues(data);
    var expectedJoystick := ComputeCrc16(payload[4..16]);
    if expectedJoystick != JoystickCrc(payload) {
      return false;
    }
    var expectedKeypad := ComputeCrc16(payload[0..2]);
    if expectedKeypad != KeypadCrc(payload) {
      return false;
    }
    ok := true;
  }

  lemma BlockResidues(data: seq<byte>)
    requires |data| >= SIZE
    ensures Crc(data[0..4]) == 0 <==> KeypadCrc(data[..SIZE]) == Crc(data[..SIZE][0..2])
    ensures Crc(data[4..SIZE]) == 0 <==> JoystickCrc(data[..SIZE]) == Crc(data[..SIZE][4..16])
  {
    hide Crc;
    var payload := data[..SIZE];
    ZeroResidue(payload[0..2], payload[2], payload[3]);
    ZeroResidue(payload[4..16], payload[16], payload[17]);
    assert data[0..4] == payload[0..2] + [payload[2], payload[3]];
    assert data[4..SIZE] == payload[4..16] + [payload[16], payload[17]];
  }

  lemma BlockDiffers(a: seq<byte>, b: seq<byte>, from: nat, to: nat, at: nat)
    requires |a| == |b| >= SIZE && from <= at < to <= SIZE && a[at] != b[at]
    requires forall k :: from <= k < to && k != at && k != at + 1 ==> a[k] == b[k]
    ensures Crc(a[from..to]) != Crc(b[from..to])
  {
    hide Crc, CrcFrom;
    var x, y := a[from..to], b[from..to];
    assert x[at - from] != y[at - from];
    AdjacentErrorDetected(x, y, at - from, 0);
    CrcIsFromZero(x);
    CrcIsFromZero(y);
  }

  lemma CrcIsFromZero(x: seq<byte>)
    ensures Crc(x) == CrcFrom(0, x)
  {
  }

  /**
   * An accepted report that is changed within any two adjacent of its first 18
   * bytes - inside a block or across the boundary between the two - is rejected.
   */
  lemma ChangedReportRejected(a: seq<byte>, b: seq<byte>, at: nat)
    requires |a| == |b| && Accepts(a) && DifferWithin(a[..SIZE], b[..SIZE], at)
    ensures !Accepts(b)
  {
    hide Crc;
    var x, y := a[..SIZE], b[..SIZE];
    assert forall k :: 0 <= k < SIZE ==> x[k] == a[k] && y[k] == b[k];
    var first := if at < SIZE && a[at] != b[at] then at else at + 1;
    assert first < SIZE && a[first] != b[first];
    if first < 4 {
      BlockDiffers(a, b, 0, 4, first);
    } else {
      BlockDiffers(a, b, 4, SIZE, first);
    }
  }

  lemma BurstInBlock(a: seq<byte>, b: seq<byte>, from: nat, to: nat, at: nat, k: nat, high: nat)
    requires |a| == |b| >= SIZE && from <= at && at + 2 < to <= SIZE
    requires BurstWithin(a[..SIZE], b[..SIZE], at, k, high)
    ensures Crc(a[from..to]) != Crc(b[from..to])
  {
    hide Crc, CrcFrom, Xor, Doubled;
    var x, y := a[from..to], b[from..to];
    assert forall i :: 0 <= i < SIZE ==> a[..SIZE][i] == a[i] && b[..SIZE][i] == b[i];
    var i :| 0 <= i < SIZE && a[i] != b[i];
    assert x[i - from] != y[i - from];
    assert BurstWithin(x, y, at - from, k, high);
    hide BurstWithin;
    BurstDetected(x, y, at - from, k, high, 0);
    CrcIsFromZero(x);
    CrcIsFromZero(y);
  }

  /** At the boundary a burst leaves at most two changed bytes in each block. */
  lemma BurstAcross(a: seq<byte>, b: seq<byte>, at: nat)
    requires |a| == |b| >= SIZE && 2 <= at <= 3 && a[..SIZE] != b[..SIZE]
    requires forall i :: 0 <= i < SIZE && !(at <= i <= at + 2) ==> a[i] == b[i]
    ensures Crc(a[0..4]) != Crc(b[0..4]) || Crc(a[4..SIZE]) != Crc(b[4..SIZE])
  {
    hide Crc;
    var i :| 0 <= i < SIZE && a[i] != b[i];
    if a[2] != b[2] || a[3] != b[3] {
      BlockDiffers(a, b, 0, 4, if a[2] != b[2] then 2 else 3);
    } else {
      BlockDiffers(a, b, 4, SIZE, if a[4] != b[4] then 4 else 5);
    }
  }

  /**
   * An accepted report changed by any burst of up to 16 bits in its 18 bytes, also
   * across the block boundary, is rejected.
   */
  lemma BurstReportRejected(a: seq<byte>, b: seq<byte>, at: nat, k: nat, high: nat)
    requires |a| == |b| && Accepts(a) && BurstWithin(a[..SIZE], b[..SIZE], at, k, high)
    ensures !Accepts(b)
  {
    hide Crc, Xor, Doubled;
    if at + 2 < 4 {
      BurstInBlock(a, b, 0, 4, at, k, high);
    } else if at >= 4 {
      BurstInBlock(a, b, 4, SIZE, at, k, high);
    } else {
      assert forall i :: 0 <= i < SIZE ==> a[..SIZE][i] == a[i] && b[..SIZE][i] == b[i];
      BurstAcross(a, b, at);
    }
  }

  /** The two blocks of an accepted report: each CRC, low byte first, is that of the bytes in front of it. */
  lemma AcceptsExactly(data: seq<byte>)
    ensures Accepts(data) <==>
      && |data| >= 18
      && Crc(data[..2]) == data[2] as int + 0x100 * (data[3] as int)
      && Crc(data[4..16]) == data[16] as int + 0x100 * (data[17] as int)
  {
    hide Crc;
    if |data| >= 18 {
      BlockResidues(data);
      assert data[..SIZE][0..2] == data[..2] && data[..SIZE][4..16] == data[4..16];
    }
  }
}
