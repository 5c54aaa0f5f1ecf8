/**
 The battery pack protocol of bms/octopus_protocol.py: requests, and the typed
 decoding of PIA (18 registers) and PIB (26 registers) responses.
 */
module Octopus {
  import opened Wrappers
  import opened Crc
  import opened CrcAlgebra
  import opened CrcPeriod
  import opened Modbus

  const FC_READ_INPUT: bv8 := 0x04
  const PIA_BYTE_COUNT: nat := 36
  const PIB_BYTE_COUNT: nat := 52
  const TEMP_K10_NA: int := 0x0AAB

  datatype PiaData = PiaData(
    pack: nat, voltage: real, current: real, remaining: real, nominal: real,
    soc: real, soh: real, cycles: int, raw: bytes)

  datatype PibData = PibData(
    pack: nat, cells: seq<int>, cellMin: int, cellMax: int, cellAvg: int, cellDelta: int,
    cellTemps: seq<Option<real>>, envTemp: Option<real>, pcbTemp: Option<real>, raw: bytes)

  datatype Decoded = Pia(pia: PiaData) | Pib(pib: PibData)

  datatype DecodeError =
    | TooShort | CrcMismatch | WrongFunction | WrongSlave | Truncated | UnknownByteCount | PayloadTooShort

  // ----- numbers in the payload -----

  /** One big-endian unsigned word at byte offset `at`. */
  function Unsigned(payload: bytes, at: nat): (n: nat)
    requires at + 2 <= |payload|
  {
    256 * Value(payload[at]) + Value(payload[at + 1])
  }

  /** The same word as a two's complement number. */
  function Signed(payload: bytes, at: nat): int
    requires at + 2 <= |payload|
  {
    var u := Unsigned(payload, at);
    if u >= 0x8000 then u - 0x1_0000 else u
  }

  function Words(payload: bytes, n: nat): (ws: seq<int>)
    requires 2 * n <= |payload|
    ensures |ws| == n
  {
    seq(n, k requires 0 <= k < n => Unsigned(payload, 2 * k))
  }

  function K10ToC(raw: int): Option<real> {
    if raw == TEMP_K10_NA then None else Some(raw as real / 10.0 - 273.15)
  }

  function MinOf(ws: seq<int>): int
    requires ws != []
  {
    if |ws| == 1 then ws[0]
    else var m := MinOf(ws[1..]); if ws[0] <= m then ws[0] else m
  }

  function MaxOf(ws: seq<int>): int
    requires ws != []
  {
    if |ws| == 1 then ws[0]
    else var m := MaxOf(ws[1..]); if ws[0] >= m then ws[0] else m
  }

  function Sum(ws: seq<int>): int {
    if ws == [] then 0 else ws[0] + Sum(ws[1..])
  }

  // ----- building and parsing -----

  /** verify_crc. */
  predicate VerifyCrc(frame: bytes) {
    |frame| >= 4 && Register(0xFFFF, frame[..|frame| - 2]) == FromWire(frame[|frame| - 2..])
  }

  /** build_request: struct.pack(">BBHH", ...) and the CRC. */
  function BuildRequest(slave: bv8, addr: bv16, count: bv16): bytes {
    WithCrc([slave, FC_READ_INPUT, Hi(addr), Lo(addr), Hi(count), Lo(count)])
  }

  function ParsePia(slave: nat, payload: bytes, frame: bytes): Result<PiaData, DecodeError> {
    if |payload| < 36 then Err(PayloadTooShort)
    else
      var u := Words(payload[..36], 18);
      Ok(PiaData(slave, u[0] as real / 100.0, Signed(payload, 2) as real / 100.0,
                 u[2] as real / 100.0, u[3] as real / 100.0, u[5] as real / 10.0, u[6] as real / 10.0, u[7], frame))
  }

  /** Byte offset of the temperatures; the firmware's 54-byte body has them later. */
  function TailStart(payload: bytes): nat {
    if |payload| - 2 == 54 then 34 else 32
  }

  function ParsePib(slave: nat, payload: bytes, frame: bytes): Result<PibData, DecodeError> {
    if |payload| < 52 then Err(PayloadTooShort)
    else
      var cells := Words(payload[..32], 16);
      var t := TailStart(payload);
      if |payload| < t + 20 then Err(PayloadTooShort)
      else
        Ok(PibData(slave, cells, MinOf(cells), MaxOf(cells), Sum(cells) / 16, MaxOf(cells) - MinOf(cells),
                   seq(4, k requires 0 <= k < 4 => K10ToC(Unsigned(payload, t + 2 * k))),
                   K10ToC(Unsigned(payload, t + 16)), K10ToC(Unsigned(payload, t + 18)), frame))
  }

  function ParseOctopus(frame: bytes): Result<Decoded, DecodeError> {
    if |frame| < 5 then Err(TooShort)
    else if !VerifyCrc(frame) then Err(CrcMismatch)
    else if frame[1] != FC_READ_INPUT then Err(WrongFunction)
    else
      var slave, count := Value(frame[0]), Value(frame[2]);
      if slave < 1 || slave > 4 then Err(WrongSlave)
      else if |frame| < 3 + count + 2 then Err(Truncated)
      else
        var payload := frame[3..3 + count];
        if count == PIA_BYTE_COUNT then
          match ParsePia(slave, payload, frame) case Ok(d) => Ok(Pia(d)) case Err(e) => Err(e)
        else if count == PIB_BYTE_COUNT then
          match ParsePib(slave, payload, frame) case Ok(d) => Ok(Pib(d)) case Err(e) => Err(e)
        else Err(UnknownByteCount)
  }

  // ----- the requests in the firmware -----

  function Eight(c: bv16): bv16 {
    Shift(Shift(Shift(Shift(Shift(Shift(Shift(Shift(c))))))))
  }

  lemma AbsorbIsEight(c: bv16, b: bv8)
    ensures Absorb(c, b) == Eight(Plus(c, b as bv16))
  {
    hide Shift, Plus, Shifts;
    var x := Plus(c, b as bv16);
    FewShifts(x);
    TwoMore(x, 2);
    TwoMore(x, 4);
    TwoMore(x, 6);
  }

  lemma RequestCrc(slave: bv8, block: bv8, count: bv8,
                   c1: bv16, c2: bv16, c3: bv16, c4: bv16, c5: bv16, lo: bv8, hi: bv8)
    returns (addr: bv16, n: bv16)
    requires Eight(Plus(0xFFFF, slave as bv16)) == c1 && Eight(Plus(c1, 4)) == c2
    requires Eight(Plus(c2, block as bv16)) == c3
    requires Eight(Plus(c3, 0)) == c4 && Eight(Plus(c4, 0)) == c5 && Eight(Plus(c5, count as bv16)) == Word(hi, lo)
    ensures addr == Word(block, 0) && n == Word(0, count)
    ensures BuildRequest(slave, addr, n) == [slave, 4, block, 0, 0, count, lo, hi]
  {
    hide Absorb, Eight, Plus, WireOrder, Lo, Hi, Word;
    AbsorbIsEight(0xFFFF, slave);
    AbsorbIsEight(c1, 4);
    AbsorbIsEight(c2, block);
    AbsorbIsEight(c3, 0);
    AbsorbIsEight(c4, 0);
    AbsorbIsEight(c5, count);
    RegisterThree(0xFFFF, slave, 4, block, [0, 0, count]);
    RegisterThree(c3, 0, 0, count, []);
    assert [slave, 4, block] + [0, 0, count] == [slave, 4, block, 0, 0, count];
    assert [0 as bv8, 0, count] + [] == [0, 0, count];
    addr, n := Word(block, 0), Word(0, count);
    HalvesOfWord(block, 0);
    HalvesOfWord(0, count);
    HalvesOfWord(hi, lo);
    LowFirst(Word(hi, lo));
  }

  lemma LowFirst(c: bv16)
    ensures WireOrder(c) == [Lo(c), Hi(c)]
  {}

  lemma RegisterFirst(c: bv16, x: bv8, rest: bytes)
    ensures Register(c, [x] + rest) == Register(Absorb(c, x), rest)
  {
    hide Absorb;
    assert ([x] + rest)[1..] == rest;
  }

  lemma RegisterThree(c: bv16, x: bv8, y: bv8, z: bv8, rest: bytes)
    ensures Register(c, [x, y, z] + rest) == Register(Absorb(Absorb(Absorb(c, x), y), z), rest)
  {
    hide Absorb;
    RegisterFirst(c, x, [y, z] + rest);
    RegisterFirst(Absorb(c, x), y, [z] + rest);
    RegisterFirst(Absorb(Absorb(c, x), y), z, rest);
    assert [x, y, z] + rest == [x] + ([y, z] + rest) && [y, z] + rest == [y] + ([z] + rest);
  }

  /** The four PIA requests are the ones the firmware spells out. */
  lemma PiaRequests()
    ensures BuildRequest(1, 0x1000, 18) == [0x01, 0x04, 0x10, 0x00, 0x00, 0x12, 0x74, 0xC7]
    ensures BuildRequest(2, 0x1000, 18) == [0x02, 0x04, 0x10, 0x00, 0x00, 0x12, 0x74, 0xF4]
    ensures BuildRequest(3, 0x1000, 18) == [0x03, 0x04, 0x10, 0x00, 0x00, 0x12, 0x75, 0x25]
    ensures BuildRequest(4, 0x1000, 18) == [0x04, 0x04, 0x10, 0x00, 0x00, 0x12, 0x74, 0x92]
  {
    hide BuildRequest;
    var _, _ := RequestCrc(1, 0x10, 0x12, 0x807E, 0xE301, 0x0C23, 0xD94D, 0x3519, 0x74, 0xC7);
    var _, _ := RequestCrc(2, 0x10, 0x12, 0x813E, 0x1301, 0x0CD3, 0x9D4D, 0x355D, 0x74, 0xF4);
    var _, _ := RequestCrc(3, 0x10, 0x12, 0x41FF, 0x8300, 0xCC82, 0x614C, 0xF560, 0x75, 0x25);
    var _, _ := RequestCrc(4, 0x10, 0x12, 0x83BE, 0xB302, 0x0D33, 0x154D, 0x35D5, 0x74, 0x92);
  }

  /** The four PIB requests are the ones the firmware spells out. */
  lemma PibRequests()
    ensures BuildRequest(1, 0x1100, 26) == [0x01, 0x04, 0x11, 0x00, 0x00, 0x1A, 0x74, 0xFD]
    ensures BuildRequest(2, 0x1100, 26) == [0x02, 0x04, 0x11, 0x00, 0x00, 0x1A, 0x74, 0xCE]
    ensures BuildRequest(3, 0x1100, 26) == [0x03, 0x04, 0x11, 0x00, 0x00, 0x1A, 0x75, 0x1F]
    ensures BuildRequest(4, 0x1100, 26) == [0x04, 0x04, 0x11, 0x00, 0x00, 0x1A, 0x74, 0xA8]
  {
    hide BuildRequest;
    var _, _ := RequestCrc(1, 0x11, 0x1A, 0x807E, 0xE301, 0xCCE2, 0x494C, 0xF548, 0x74, 0xFD);
    var _, _ := RequestCrc(2, 0x11, 0x1A, 0x813E, 0x1301, 0xCC12, 0x0D4C, 0xF50C, 0x74, 0xCE);
    var _, _ := RequestCrc(3, 0x11, 0x1A, 0x41FF, 0x8300, 0x0C43, 0xF14D, 0x3531, 0x75, 0x1F);
    var _, _ := RequestCrc(4, 0x11, 0x1A, 0x83BE, 0xB302, 0xCDF2, 0x854C, 0xF584, 0x74, 0xA8);
  }

  // ----- the CRC check is the one of the inverter side -----

  lemma WireInverse(c: bv16, w: bytes)
    requires |w| == 2
    ensures FromWire(WireOrder(c)) == c
    ensures WireOrder(FromWire(w)) == w
  {}

  lemma VerifyCrcIsCrcOk(frame: bytes)
    ensures VerifyCrc(frame) <==> |frame| >= 4 && CrcOk(frame)
  {
    if |frame| >= 4 {
      WireInverse(Register(0xFFFF, frame[..|frame| - 2]), frame[|frame| - 2..]);
    }
  }

  /** No visible transmission error gets a pack's response decoded. */
  lemma CorruptFrameRejected(frame: bytes, e: bytes)
    requires |frame| >= 5 && VerifyCrc(frame) && |e| == |frame| && Visible(Wire(e))
    ensures ParseOctopus(Xor(frame, e)) == Err(CrcMismatch)
  {
    hide Visible, CrcOk, VerifyCrc;
    VerifyCrcIsCrcOk(frame);
    VerifyCrcIsCrcOk(Xor(frame, e));
    VisibleBreaksCrc(frame, e);
  }

  // ----- what a decoded response says -----

  lemma {:induction false} Extremes(ws: seq<int>)
    requires ws != []
    ensures MinOf(ws) in ws && MaxOf(ws) in ws
    ensures forall x :: x in ws ==> MinOf(ws) <= x <= MaxOf(ws)
    decreases |ws|
  {
    if |ws| == 1 {
    } else {
      Extremes(ws[1..]);
      assert ws == [ws[0]] + ws[1..];
    }
  }

  lemma {:induction false} SumBetween(ws: seq<int>, lo: int, hi: int)
    requires forall x :: x in ws ==> lo <= x <= hi
    ensures |ws| * lo <= Sum(ws) <= |ws| * hi
    decreases |ws|
  {
    if ws == [] {
    } else {
      assert ws[0] in ws && forall x :: x in ws[1..] ==> x in ws;
      SumBetween(ws[1..], lo, hi);
      OneMore(|ws| - 1, lo);
      OneMore(|ws| - 1, hi);
    }
  }

  lemma SumOfFour(ws: seq<int>)
    requires |ws| >= 4
    ensures Sum(ws) == ws[0] + ws[1] + ws[2] + ws[3] + Sum(ws[4..])
    ensures |ws| >= 8 ==> ws[4..][4..] == ws[8..]
  {
    hide Sum;
    SumFrom(ws, 0);
    SumFrom(ws, 1);
    SumFrom(ws, 2);
    SumFrom(ws, 3);
    assert ws[0..] == ws;
  }

  lemma SumFrom(ws: seq<int>, k: nat)
    requires k < |ws|
    ensures Sum(ws[k..]) == ws[k] + Sum(ws[k + 1..])
  {
    assert ws[k..][1..] == ws[k + 1..];
  }

  lemma OneMore(n: int, x: int)
    ensures (n + 1) * x == n * x + x
  {}

  /** The cell statistics of a PIB response bound and summarise its 16 cells. */
  lemma PibStatistics(frame: bytes, d: PibData)
    requires ParseOctopus(frame) == Ok(Pib(d))
    ensures |d.cells| == 16 && d.cellMin in d.cells && d.cellMax in d.cells
    ensures forall x :: x in d.cells ==> d.cellMin <= x <= d.cellMax
    ensures d.cellMin <= d.cellAvg <= d.cellMax
    ensures var c := d.cells;
            var sum := c[0] + c[1] + c[2] + c[3] + c[4] + c[5] + c[6] + c[7] + c[8] + c[9] + c[10] + c[11] +
                       c[12] + c[13] + c[14] + c[15];
            16 * d.cellAvg <= sum < 16 * d.cellAvg + 16
    ensures d.cellDelta == d.cellMax - d.cellMin >= 0
  {
    Extremes(d.cells);
    SumBetween(d.cells, d.cellMin, d.cellMax);
    SumOfFour(d.cells);
    SumOfFour(d.cells[4..]);
    SumOfFour(d.cells[8..]);
    SumOfFour(d.cells[12..]);
  }

  /** Bytes at and at + 1, the high one first. */
  function BigEndian(frame: bytes, at: nat): int
    requires at + 1 < |frame|
  {
    Value(frame[at]) * 256 + Value(frame[at + 1])
  }

  /** Each error exactly for its own fault, in this order, and no other error. */
  lemma OctopusErrorsExact(frame: bytes)
    ensures var r := ParseOctopus(frame);
            if |frame| < 5 then r == Err(TooShort)
            else if !CrcOk(frame) then r == Err(CrcMismatch)
            else if frame[1] != 4 then r == Err(WrongFunction)
            else if !(1 <= Value(frame[0]) <= 4) then r == Err(WrongSlave)
            else if |frame| < Value(frame[2]) + 5 then r == Err(Truncated)
            else if Value(frame[2]) == 36 then r.Ok? && r.value.Pia?
            else if Value(frame[2]) == 52 then r.Ok? && r.value.Pib?
            else r == Err(UnknownByteCount)
  {
    hide VerifyCrc, CrcOk, Value, Words, K10ToC, Signed, Unsigned, MinOf, MaxOf, Sum;
    if |frame| >= 5 { VerifyCrcIsCrcOk(frame); }
  }

  /** Tenths of a kelvin as degrees; 0x0AAB is a missing probe. */
  predicate Celsius(raw: int, t: Option<real>) {
    if raw == 0x0AAB then t == None else t == Some(raw as real / 10.0 - 273.15)
  }

  lemma CelsiusIs(frame: bytes, at: nat, t: Option<real>)
    requires at + 2 <= |frame| && t == K10ToC(Unsigned(frame, at))
    ensures Celsius(BigEndian(frame, at), t)
  {}

  lemma KelvinIs(raw: int)
    ensures Celsius(raw, K10ToC(raw))
  {}

  lemma TailAt(frame: bytes, d: PibData)
    requires ParseOctopus(frame) == Ok(Pib(d))
    ensures |frame| >= 57 && |d.cellTemps| == 4
    ensures forall k :: 0 <= k < 4 ==> d.cellTemps[k] == K10ToC(Unsigned(frame, 35 + 2 * k))
    ensures d.envTemp == K10ToC(Unsigned(frame, 51)) && d.pcbTemp == K10ToC(Unsigned(frame, 53))
  {
    hide K10ToC;
    var payload := frame[3..55];
    assert forall at :: 0 <= at <= 50 ==> Unsigned(payload, at) == Unsigned(frame, 3 + at);
  }

  /** Temperatures always come from payload offset 32: the offset the firmware
      keeps for a 54-byte body is never reached through the parser. */
  lemma PibTail(frame: bytes, d: PibData)
    requires ParseOctopus(frame) == Ok(Pib(d))
    ensures |frame| >= 57 && |d.cellTemps| == 4
    ensures forall k :: 0 <= k < 4 ==> Celsius(BigEndian(frame, 35 + 2 * k), d.cellTemps[k])
    ensures Celsius(BigEndian(frame, 51), d.envTemp) && Celsius(BigEndian(frame, 53), d.pcbTemp)
  {
    hide ParseOctopus, K10ToC, Unsigned, Celsius, BigEndian;
    TailAt(frame, d);
    forall k: nat | k < 4 { CelsiusIs(frame, 35 + 2 * k, d.cellTemps[k]); }
    CelsiusIs(frame, 51, d.envTemp);
    CelsiusIs(frame, 53, d.pcbTemp);
  }

  // ----- round trips -----

  predicate WordSized(regs: seq<nat>) {
    forall k :: 0 <= k < |regs| ==> regs[k] < 0x1_0000
  }

  function WordBytes(regs: seq<nat>): (body: bytes)
    requires WordSized(regs)
    ensures |body| == 2 * |regs|
  {
    seq(2 * |regs|, k requires 0 <= k < 2 * |regs| =>
      if k % 2 == 0 then Byte(regs[k / 2] / 256) else Byte(regs[k / 2] % 256))
  }

  lemma WordsOfBytes(regs: seq<nat>, k: nat)
    requires WordSized(regs)
    requires k < |regs|
    ensures Unsigned(WordBytes(regs), 2 * k) == regs[k]
  {
    ValueOfByte(regs[k] / 256);
    ValueOfByte(regs[k] % 256);
  }

  function EncodeOctopus(pack: nat, regs: seq<nat>): bytes
    requires pack < 256 && 2 * |regs| < 256 && WordSized(regs)
  {
    WithCrc([Byte(pack), FC_READ_INPUT, Byte(2 * |regs|)] + WordBytes(regs))
  }

  function ToSigned(u: nat): int {
    if u >= 0x8000 then u - 0x1_0000 else u
  }

  lemma EncodedParts(pack: nat, regs: seq<nat>)
    requires pack < 256 && 2 * |regs| < 256 && WordSized(regs)
    ensures var w := EncodeOctopus(pack, regs);
            && |w| == 5 + 2 * |regs| && (|w| >= 4 ==> VerifyCrc(w))
            && Value(w[0]) == pack && w[1] == FC_READ_INPUT && Value(w[2]) == 2 * |regs|
            && w[3..3 + 2 * |regs|] == WordBytes(regs)
  {
    var body := [Byte(pack), FC_READ_INPUT, Byte(2 * |regs|)] + WordBytes(regs);
    ValueOfByte(pack);
    ValueOfByte(2 * |regs|);
    WithCrcOk(body);
    VerifyCrcIsCrcOk(WithCrc(body));
    assert WithCrc(body)[3..3 + 2 * |regs|] == WordBytes(regs);
  }

  lemma PiaRoundTrip(pack: nat, regs: seq<nat>)
    requires 1 <= pack <= 4 && |regs| == 18 && WordSized(regs)
    ensures ParseOctopus(EncodeOctopus(pack, regs)) == Ok(Pia(PiaData(
              pack, regs[0] as real / 100.0, ToSigned(regs[1]) as real / 100.0,
              regs[2] as real / 100.0, regs[3] as real / 100.0, regs[5] as real / 10.0, regs[6] as real / 10.0,
              regs[7], EncodeOctopus(pack, regs))))
  {
    hide VerifyCrc, EncodeOctopus, Value, WordBytes, Unsigned, TailStart, ParsePib;
    EncodedParts(pack, regs);
    var payload := WordBytes(regs);
    assert payload[..36] == payload;
    forall k | 0 <= k < 18
      ensures Words(payload, 18)[k] == regs[k]
    {
      WordsOfBytes(regs, k);
    }
    WordsOfBytes(regs, 1);
  }

  lemma PibFields(pack: nat, regs: seq<nat>)
    requires 1 <= pack <= 4 && |regs| == 26 && WordSized(regs)
    ensures var r := ParseOctopus(EncodeOctopus(pack, regs));
            && r.Ok? && r.value.Pib?
            && r.value.pib.pack == pack && r.value.pib.raw == EncodeOctopus(pack, regs)
            && r.value.pib.cells == regs[..16]
            && r.value.pib.cellTemps == seq(4, k requires 0 <= k < 4 => K10ToC(regs[16 + k]))
            && r.value.pib.envTemp == K10ToC(regs[24]) && r.value.pib.pcbTemp == K10ToC(regs[25])
  {
    hide VerifyCrc, EncodeOctopus, Value, WordBytes, K10ToC, Unsigned, MinOf, MaxOf, Sum;
    EncodedParts(pack, regs);
    var payload := WordBytes(regs);
    forall k | 0 <= k < 26
      ensures Unsigned(payload, 2 * k) == regs[k]
    {
      WordsOfBytes(regs, k);
    }
    CellWords(payload, regs);
  }

  lemma CellWords(payload: bytes, regs: seq<nat>)
    requires |payload| == 52 && |regs| == 26 && forall k :: 0 <= k < 26 ==> Unsigned(payload, 2 * k) == regs[k]
    ensures Words(payload[..32], 16) == regs[..16]
  {
    forall k | 0 <= k < 16
      ensures Words(payload[..32], 16)[k] == regs[k]
    {
      assert Unsigned(payload[..32], 2 * k) == Unsigned(payload, 2 * k);
    }
  }

  lemma PibRoundTrip(pack: nat, regs: seq<nat>)
    requires 1 <= pack <= 4 && |regs| == 26 && WordSized(regs)
    ensures var r := ParseOctopus(EncodeOctopus(pack, regs));
            && r.Ok? && r.value.Pib?
            && r.value.pib.pack == pack && r.value.pib.raw == EncodeOctopus(pack, regs)
            && r.value.pib.cells == regs[..16]
            && |r.value.pib.cellTemps| == 4
            && (forall k :: 0 <= k < 4 ==> Celsius(regs[16 + k], r.value.pib.cellTemps[k]))
            && Celsius(regs[24], r.value.pib.envTemp) && Celsius(regs[25], r.value.pib.pcbTemp)
  {
    hide ParseOctopus, EncodeOctopus, K10ToC, Celsius;
    PibFields(pack, regs);
    forall k | 16 <= k < 26 { KelvinIs(regs[k]); }
  }
}
