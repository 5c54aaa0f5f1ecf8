/**
 Framing of function code 3 (read holding registers): modbus.py.
 */
module Modbus {
  import opened Wrappers
  import opened Crc
  import opened CrcAlgebra
  import Errors = CrcErrors
  import opened CrcPeriod

  const FC_READ_HOLDING: bv8 := 0x03

  datatype ModbusFrame = ModbusFrame(slave: bv8, func: bv8, regs: seq<bv16>)
  datatype ModbusException = ModbusException(slave: bv8, func: bv8, excode: bv8)

  /** What a call to parse_response ends in. */
  datatype Parsed = Frame(frame: ModbusFrame) | Raised(exc: ModbusException) | Invalid

  // ----- bytes and words -----

  function Word(hi: bv8, lo: bv8): bv16 {
    ((hi as bv16) << 8) | (lo as bv16)
  }

  function Hi(w: bv16): bv8 {
    (w >> 8) as bv8
  }

  function Lo(w: bv16): bv8 {
    (w & 0xFF) as bv8
  }

  lemma WordHalves(w: bv16)
    ensures Word(Hi(w), Lo(w)) == w
  {}

  lemma HalvesOfWord(hi: bv8, lo: bv8)
    ensures Hi(Word(hi, lo)) == hi && Lo(Word(hi, lo)) == lo
  {}

  /** The number a byte denotes, counted down to zero. */
  function Value(b: bv8): nat
    decreases b
  {
    if b == 0 then 0 else Value(b - 1) + 1
  }

  /** The byte that denotes `n`. */
  function Byte(n: nat): bv8
    requires n < 256
  {
    if n == 0 then 0 else Byte(n - 1) + 1
  }

  lemma {:induction false} ValueIsInt(b: bv8)
    ensures Value(b) == b as int < 256
    decreases b
  {
    if b != 0 {
      ValueIsInt(b - 1);
      Predecessor(b);
    }
  }

  lemma Predecessor(b: bv8)
    requires b != 0
    ensures (b - 1) as int == b as int - 1
  {}

  lemma ByteOfValue(b: bv8)
    ensures Value(b) < 256 && Byte(Value(b)) == b
    decreases b
  {
    ValueIsInt(b);
    if b != 0 { ByteOfValue(b - 1); }
  }

  /** A number below 256 survives the trip through one byte. */
  lemma {:induction false} ValueOfByte(n: nat)
    requires n < 256
    ensures Value(Byte(n)) == n
  {
    if n == 0 {
    } else {
      ValueOfByte(n - 1);
      ValueIsInt(Byte(n - 1));
      NotTop(Byte(n - 1), n - 1);
    }
  }

  lemma NotTop(b: bv8, n: nat)
    requires b as int == n < 255
    ensures b + 1 != 0 && b + 1 - 1 == b
  {}

  /** Register values as the big-endian words of `body`. */
  function Registers(body: bytes): (regs: seq<bv16>)
    requires |body| % 2 == 0
    ensures |regs| == |body| / 2
  {
    seq(|body| / 2, k requires 0 <= k < |body| / 2 => Word(body[2 * k], body[2 * k + 1]))
  }

  function RegisterBytes(regs: seq<bv16>): (body: bytes)
    ensures |body| == 2 * |regs|
  {
    seq(2 * |regs|, k requires 0 <= k < 2 * |regs| => if k % 2 == 0 then Hi(regs[k / 2]) else Lo(regs[k / 2]))
  }

  lemma RegistersOfBytes(regs: seq<bv16>)
    ensures Registers(RegisterBytes(regs)) == regs
  {
    forall k | 0 <= k < |regs|
      ensures Registers(RegisterBytes(regs))[k] == regs[k]
    {
      WordHalves(regs[k]);
    }
  }

  lemma BytesOfRegisters(body: bytes)
    requires |body| % 2 == 0
    ensures RegisterBytes(Registers(body)) == body
  {
    forall k | 0 <= k < |body|
      ensures RegisterBytes(Registers(body))[k] == body[k]
    {
      HalvesOfWord(body[k / 2 * 2], body[k / 2 * 2 + 1]);
    }
  }

  // ----- frames on the wire -----

  function WithCrc(body: bytes): (frame: bytes)
    ensures |frame| == |body| + 2
  {
    body + Crc16(body)
  }

  lemma WithCrcOk(body: bytes)
    ensures CrcOk(WithCrc(body))
  {
    var f := WithCrc(body);
    assert f[..|f| - 2] == body && f[|f| - 2..] == Crc16(body);
  }

  lemma CrcOkIsWithCrc(frame: bytes)
    requires CrcOk(frame)
    ensures frame == WithCrc(frame[..|frame| - 2])
  {}

  function EncodeResponse(f: ModbusFrame): (wire: bytes)
    requires |f.regs| <= 127
    ensures |wire| == 5 + 2 * |f.regs|
  {
    WithCrc(ResponseBody(f))
  }

  function ResponseBody(f: ModbusFrame): (body: bytes)
    requires |f.regs| <= 127
    ensures |body| == 3 + 2 * |f.regs|
  {
    [f.slave, f.func, Byte(2 * |f.regs|)] + RegisterBytes(f.regs)
  }

  function EncodeRequest(slave: bv8, addr: bv16, count: bv16): (wire: bytes)
    ensures |wire| == 8
  {
    WithCrc([slave, FC_READ_HOLDING, Hi(addr), Lo(addr), Hi(count), Lo(count)])
  }

  function EncodeException(slave: bv8, func: bv8, excode: bv8): (wire: bytes)
    ensures |wire| == 5
  {
    WithCrc([slave, func, excode])
  }

  /** modbus.py: build_read_holding_request; None is the ValueError. */
  function BuildReadHoldingRequest(slave: bv8, addr: int, count: int): Option<bytes> {
    if !(1 <= count <= 125) then None
    else if !(0 <= addr <= 0xFFFF) then None
    else
      var a, c := addr as bv16, count as bv16;
      Some(WithCrc([slave, FC_READ_HOLDING, Hi(a), Lo(a), Hi(c), Lo(c)]))
  }

  /** modbus.py: parse_response. */
  function ParseResponse(buf: bytes, expectedSlave: bv8, expectedCount: int): Parsed {
    if |buf| < 5 then Invalid
    else if buf[0] != expectedSlave then Invalid
    else if buf[1] & 0x80 != 0 then
      if CrcOk(buf[..5]) then Raised(ModbusException(buf[0], buf[1] & 0x7F, buf[2])) else Invalid
    else if buf[1] != FC_READ_HOLDING then Invalid
    else
      var bc := Value(buf[2]);
      if bc != 2 * expectedCount then Invalid
      else if |buf| < 5 + bc then Invalid
      else if CrcOk(buf[..5 + bc]) then
        Frame(ModbusFrame(buf[0], buf[1], Registers(buf[3..3 + bc])))
      else Invalid
  }

  // ----- what the parser accepts -----

  lemma EncodedResponseParts(f: ModbusFrame)
    requires |f.regs| <= 127
    ensures var w := EncodeResponse(f);
            && w[0] == f.slave && w[1] == f.func && Value(w[2]) == 2 * |f.regs|
            && Registers(w[3..3 + 2 * |f.regs|]) == f.regs
            && CrcOk(w)
  {
    ValueOfByte(2 * |f.regs|);
    RegistersOfBytes(f.regs);
    WithCrcOk(ResponseBody(f));
    assert EncodeResponse(f)[3..3 + 2 * |f.regs|] == RegisterBytes(f.regs);
  }

  /** The bytes of a response, from its header and its payload. */
  lemma BodyReassembled(body: bytes)
    requires |body| >= 3 && Value(body[2]) == |body| - 3 && |body| % 2 == 1
    ensures |body| <= 258
    ensures ResponseBody(ModbusFrame(body[0], body[1], Registers(body[3..]))) == body
  {
    hide Value, Byte, Registers, RegisterBytes;
    BytesOfRegisters(body[3..]);
    ByteOfValue(body[2]);
    assert body == [body[0], body[1], body[2]] + body[3..];
  }

  /** A checked buffer with a byte count that fits is an encoded response. */
  lemma ResponseReencodes(w: bytes)
    requires |w| >= 5 && Value(w[2]) == |w| - 5 && |w| % 2 == 1 && CrcOk(w)
    ensures |w| <= 260
    ensures EncodeResponse(ModbusFrame(w[0], w[1], Registers(w[3..|w| - 2]))) == w
  {
    var body := w[..|w| - 2];
    BodyReassembled(body);
    assert body[3..] == w[3..|w| - 2];
    CrcOkIsWithCrc(w);
  }

  lemma FrameIsEncoded(buf: bytes, slave: bv8, count: int, f: ModbusFrame)
    requires ParseResponse(buf, slave, count) == Frame(f)
    ensures f.slave == slave && f.func == FC_READ_HOLDING && |f.regs| == count <= 127
    ensures EncodeResponse(f) <= buf
  {
    var w := buf[..5 + 2 * count];
    assert w[3..|w| - 2] == buf[3..3 + 2 * count];
    ResponseReencodes(w);
  }

  lemma EncodedIsParsed(buf: bytes, f: ModbusFrame)
    requires f.func == FC_READ_HOLDING && |f.regs| <= 127 && EncodeResponse(f) <= buf
    ensures ParseResponse(buf, f.slave, |f.regs|) == Frame(f)
  {
    hide CrcOk, EncodeResponse, Value;
    EncodedResponseParts(f);
    var n := 2 * |f.regs|;
    var w := EncodeResponse(f);
    assert buf[..5 + n] == w;
    assert buf[3..3 + n] == w[3..3 + n];
  }

  /** A frame is returned exactly when the buffer starts with its encoding. */
  lemma ParseResponseExact(buf: bytes, slave: bv8, count: int, f: ModbusFrame)
    ensures ParseResponse(buf, slave, count) == Frame(f) <==>
            && f.slave == slave && f.func == FC_READ_HOLDING
            && |f.regs| == count <= 127
            && EncodeResponse(f) <= buf
  {
    if ParseResponse(buf, slave, count) == Frame(f) {
      FrameIsEncoded(buf, slave, count, f);
    } else if f.slave == slave && f.func == FC_READ_HOLDING && |f.regs| == count <= 127 && EncodeResponse(f) <= buf {
      EncodedIsParsed(buf, f);
    }
  }

  /** The only frame a buffer of that exact length can yield has its CRC intact. */
  lemma FrameNeedsCrc(x: bytes, slave: bv8, count: nat)
    requires |x| == 5 + 2 * count && !CrcOk(x)
    ensures !ParseResponse(x, slave, count).Frame?
  {
    assert x[..5 + 2 * count] == x;
  }

  /** No visible transmission error makes the parser return a frame. */
  lemma CorruptResponseRejected(f: ModbusFrame, e: bytes)
    requires |f.regs| <= 127
    requires |e| == |EncodeResponse(f)| && Visible(Wire(e))
    ensures !ParseResponse(Xor(EncodeResponse(f), e), f.slave, |f.regs|).Frame?
  {
    var w := EncodeResponse(f);
    EncodedResponseParts(f);
    VisibleBreaksCrc(w, e);
    FrameNeedsCrc(Xor(w, e), f.slave, |f.regs|);
  }

  /** One, two or three flipped bits anywhere in a response. */
  lemma FewFlipsRejected(f: ModbusFrame, e: bytes)
    requires |f.regs| <= 127
    requires |e| == |EncodeResponse(f)| && 1 <= Errors.Weight(Wire(e)) <= 3
    ensures !ParseResponse(Xor(EncodeResponse(f), e), f.slave, |f.regs|).Frame?
  {
    FewFlipsVisible(Wire(e));
    CorruptResponseRejected(f, e);
  }

  lemma HighBit(func: bv8)
    ensures func & 0x80 != 0 <==> func >= 0x80
    ensures func >= 0x80 ==> func & 0x7F == func - 0x80
  {}

  lemma ExceptionParts(slave: bv8, func: bv8, excode: bv8)
    ensures var w := EncodeException(slave, func, excode);
            |w| == 5 && w[0] == slave && w[1] == func && w[2] == excode && CrcOk(w)
  {
    WithCrcOk([slave, func, excode]);
  }

  lemma ExceptionReencodes(w: bytes)
    requires |w| == 5 && CrcOk(w)
    ensures w == EncodeException(w[0], w[1], w[2])
  {
    CrcOkIsWithCrc(w);
    assert w[..3] == [w[0], w[1], w[2]];
  }

  /** The exception is raised iff the buffer starts with an exception frame of
      the slave asked, whatever count was asked. */
  lemma ParseRaisedExact(buf: bytes, slave: bv8, count: int, exc: ModbusException)
    ensures ParseResponse(buf, slave, count) == Raised(exc) <==>
            && |buf| >= 5 && buf[0] == slave && buf[1] >= 0x80
            && buf[..5] == EncodeException(slave, buf[1], buf[2])
            && exc == ModbusException(slave, buf[1] - 0x80, buf[2])
  {
    hide CrcOk, EncodeException, Registers, Value;
    if |buf| >= 5 {
      HighBit(buf[1]);
      ExceptionParts(slave, buf[1], buf[2]);
      if CrcOk(buf[..5]) { ExceptionReencodes(buf[..5]); }
    }
  }
}
