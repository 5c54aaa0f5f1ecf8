/**
 The Modbus CRC-16 of inverter_bridge/crc.py (and of bms/octopus_protocol.py,
 which repeats it), as the register machine both files run: reflected
 polynomial 0xA001, initial value 0xFFFF, eight shifts a byte.
 */
module Crc {
  type bytes = seq<bv8>

  /** Addition of registers, as polynomials over GF(2). */
  function Plus(a: bv16, b: bv16): bv16 {
    a ^ b
  }

  /** One turn of the inner loop. */
  function Shift(c: bv16): bv16 {
    if c & 1 == 1 then (c >> 1) ^ 0xA001 else c >> 1
  }

  function Shifts(c: bv16, n: nat): bv16
    decreases n, c
  {
    if n == 0 then c else Shifts(Shift(c), n - 1)
  }

  /** One turn of the outer loop. */
  function Absorb(c: bv16, b: bv8): bv16 {
    Shifts(Plus(c, b as bv16), 8)
  }

  /** The register after `data`, started from `c`. */
  function Register(c: bv16, data: bytes): bv16
    decreases |data|
  {
    if data == [] then c else Register(Absorb(c, data[0]), data[1..])
  }

  /** Two bytes, low byte first. */
  function WireOrder(c: bv16): (w: bytes)
    ensures |w| == 2
  {
    [(c & 0xFF) as bv8, (c >> 8) as bv8]
  }

  /** What struct.unpack("<H", ...) reads back. */
  function FromWire(w: bytes): bv16
    requires |w| == 2
  {
    (w[0] as bv16) | ((w[1] as bv16) << 8)
  }

  function Crc16(data: bytes): (w: bytes)
    ensures |w| == 2
  {
    WireOrder(Register(0xFFFF, data))
  }

  /** `frame` ends with the CRC of the bytes before it. */
  predicate CrcOk(frame: bytes) {
    |frame| >= 2 && Crc16(frame[..|frame| - 2]) == frame[|frame| - 2..]
  }

  // ----- the two loops of the source -----

  lemma RegisterAppend(c: bv16, a: bytes, b: bytes)
    ensures Register(c, a + b) == Register(Register(c, a), b)
    decreases |a|
  {
    if a == [] {
      assert a + b == b;
    } else {
      assert (a + b)[1..] == a[1..] + b;
      RegisterAppend(Absorb(c, a[0]), a[1..], b);
    }
  }

  /** crc.py: crc16. */
  method ComputeCrc16(data: bytes) returns (wire: bytes)
    ensures wire == Crc16(data)
  {
    var crc: bv16 := 0xFFFF;
    for i := 0 to |data|
      invariant Register(crc, data[i..]) == Register(0xFFFF, data)
    {
      ghost var before := crc;
      crc := crc ^ (data[i] as bv16);
      for k := 0 to 8
        invariant Shifts(crc, 8 - k) == Absorb(before, data[i])
      {
        crc := if crc & 1 == 1 then (crc >> 1) ^ 0xA001 else crc >> 1;
      }
      assert data[i..][1..] == data[i + 1..];
    }
    wire := [(crc & 0xFF) as bv8, (crc >> 8) as bv8];
  }

  /** octopus_protocol.py: crc16_modbus. */
  method ComputeCrc16Modbus(data: bytes) returns (crc: bv16)
    ensures crc == Register(0xFFFF, data)
    ensures WireOrder(crc) == Crc16(data)
  {
    crc := 0xFFFF;
    for i := 0 to |data|
      invariant Register(crc, data[i..]) == Register(0xFFFF, data)
    {
      ghost var before := crc;
      crc := crc ^ (data[i] as bv16);
      for k := 0 to 8
        invariant Shifts(crc, 8 - k) == Absorb(before, data[i])
      {
        if crc & 0x0001 == 1 {
          crc := (crc >> 1) ^ 0xA001;
        } else {
          crc := crc >> 1;
        }
      }
      assert data[i..][1..] == data[i + 1..];
    }
  }
}
