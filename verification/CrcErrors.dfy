/**
 Which transmission errors the CRC can miss. An error is a byte string XORed
 onto a valid frame of the same length; Register(0, e) == 0 is exactly the
 case where the corrupted frame still checks.
 */
module CrcErrors {
  import opened Crc
  import opened CrcAlgebra

  // ----- the residue -----

  /** Sixteen bits bring a register to zero only if they are its own bits. */
  lemma {:induction false} SilencingBits(c: bv16, w: seq<bool>)
    requires |w| <= 16 && BitRegister(c, w) == 0
    ensures w == Bits(c, |w|) && Fits(c, |w|)
    decreases |w|
  {
    if w == [] {
    } else {
      var x := Plus(c, Bit(w[0]));
      SilencingBits(Shift(x), w[1..]);
      TopBitClear(Shift(x), |w| - 1);
      ShiftByTopBit(x);
      BitsPlusBit(c, w[0]);
      PlusHalves(c, Bit(w[0]));
      assert Half(Bit(w[0])) == 0;
      PlusZero(Half(c));
    }
  }

  predicate TopBit(x: bv16) {
    x & 0x8000 != 0
  }

  /** The polynomial always sets the top bit, a plain halving never does. */
  lemma ShiftByTopBit(x: bv16)
    ensures TopBit(Shift(x)) == Odd(x)
    ensures !Odd(x) ==> Shift(x) == Half(x)
  {}

  lemma {:induction false} TopBitClear(x: bv16, n: nat)
    requires n <= 15 && Fits(x, n)
    ensures !TopBit(x)
  {
    FitsMonotone(x, n, 15);
    if TopBit(x) {
      assert AtMost(0x8000, x);
      FitsBelow(0x8000, x, 15);
      EightThousand();
    }
  }

  lemma {:induction false} FitsMonotone(x: bv16, m: nat, n: nat)
    requires m <= n && Fits(x, m)
    ensures Fits(x, n)
    decreases n
  {
    if m > 0 {
      FitsMonotone(Half(x), m - 1, n - 1);
    } else if n > 0 {
      FitsMonotone(Half(x), 0, n - 1);
    }
  }

  lemma EightThousand()
    ensures !Fits(0x8000, 15)
  {
    assert !Fits(0x8, 3);
    assert !Fits(0x80, 7);
    assert !Fits(0x800, 11);
  }

  /** Its own two bytes, low byte first, bring a register to zero. */
  lemma OwnBytesSilence(c: bv16)
    ensures Register(c, WireOrder(c)) == 0
  {
    var w := WireOrder(c);
    OwnBytesCancel(c);
    EightHalvings(ClearLowByte(c));
    ShiftsZero(8);
    var r := Absorb(c, w[0]);
    assert Register(c, w) == Register(r, w[1..]);
    assert Register(r, w[1..]) == Register(Absorb(r, w[1]), w[1..][1..]);
  }

  function ClearLowByte(c: bv16): bv16 {
    c & 0xFF00
  }

  function HighByte(c: bv16): bv16 {
    c >> 8
  }

  lemma OwnBytesCancel(c: bv16)
    ensures Plus(c, WireOrder(c)[0] as bv16) == ClearLowByte(c)
    ensures Plus(HighByte(ClearLowByte(c)), WireOrder(c)[1] as bv16) == 0
    ensures NibbleClear(ClearLowByte(c)) && NibbleClear(Nibble(ClearLowByte(c)))
  {}

  function Nibble(h: bv16): bv16 {
    Half(Half(Half(Half(h))))
  }

  predicate NibbleClear(h: bv16) {
    h & 0xF == 0
  }

  lemma EightHalvings(h: bv16)
    requires NibbleClear(h) && NibbleClear(Nibble(h))
    ensures Shifts(h, 8) == HighByte(h)
  {
    FourHalvings(h, 4);
    FourHalvings(Nibble(h), 0);
    assert Nibble(Nibble(h)) == HighByte(h);
  }

  lemma NibbleHalves(h: bv16)
    requires NibbleClear(h)
    ensures Shift(h) == Half(h) && Shift(Half(h)) == Half(Half(h))
    ensures Shift(Half(Half(h))) == Half(Half(Half(h))) && Shift(Half(Half(Half(h)))) == Nibble(h)
  {}

  lemma FourHalvings(h: bv16, n: nat)
    requires NibbleClear(h)
    ensures Shifts(h, n + 4) == Shifts(Nibble(h), n)
  {
    NibbleHalves(h);
    hide Shift, Half, Nibble, NibbleClear;
    var h1 := Half(h);
    var h2 := Half(h1);
    assert Shifts(h, n + 4) == Shifts(h1, n + 3);
    assert Shifts(h1, n + 3) == Shifts(h2, n + 2);
    assert Shifts(h2, n + 2) == Shifts(Half(h2), n + 1);
  }

  // ----- bursts -----

  predicate Silent(bits: seq<bool>) {
    forall i :: 0 <= i < |bits| ==> !bits[i]
  }

  lemma {:induction false} ZeroBits(bits: seq<bool>)
    requires Silent(bits)
    ensures BitRegister(0, bits) == 0
    decreases |bits|
  {
    if bits == [] {
    } else {
      PlusZero(0);
      ZeroBits(bits[1..]);
    }
  }

  lemma {:induction false} BitsOfZero(n: nat)
    ensures Silent(Bits(0, n))
  {
    if n == 0 {
    } else {
      assert Half(0) == 0;
      BitsOfZero(n - 1);
    }
  }

  /** Trailing zeros cannot bring a register to zero. */
  lemma {:induction false} ZeroTail(c: bv16, bits: seq<bool>)
    requires Silent(bits) && BitRegister(c, bits) == 0
    ensures c == 0
    decreases |bits|
  {
    if bits == [] {
    } else {
      PlusZero(c);
      ZeroTail(Shift(c), bits[1..]);
      ShiftInjective(c, 0);
    }
  }

  /** A burst: error bits, at least one, all within sixteen of `p`. */
  predicate Burst(bits: seq<bool>, p: nat) {
    && !Silent(bits)
    && forall i :: 0 <= i < |bits| && bits[i] ==> p <= i < p + 16
  }

  lemma PaddedBurstSeen(a: seq<bool>, w: seq<bool>, z: seq<bool>)
    requires Silent(a) && Silent(z) && |w| <= 16 && !Silent(w)
    ensures BitRegister(0, a + (w + z)) != 0
  {
    BitRegisterAppend(0, a, w + z);
    ZeroBits(a);
    BitRegisterAppend(0, w, z);
    if BitRegister(0, a + (w + z)) == 0 {
      ZeroTail(BitRegister(0, w), z);
      SilencingBits(0, w);
      BitsOfZero(|w|);
      assert false;
    }
  }

  lemma BurstSeen(bits: seq<bool>, p: nat)
    requires Burst(bits, p)
    ensures BitRegister(0, bits) != 0
  {
    var hi := if p + 16 <= |bits| then p + 16 else |bits|;
    var k :| 0 <= k < |bits| && bits[k];
    assert bits[p..hi][k - p];
    assert bits == bits[..p] + (bits[p..hi] + bits[hi..]);
    PaddedBurstSeen(bits[..p], bits[p..hi], bits[hi..]);
  }

  lemma {:induction false} SilentByte(x: bv16, n: nat)
    requires Fits(x, n) && Silent(Bits(x, n))
    ensures x == 0
    decreases n
  {
    if n == 0 {
    } else {
      assert Bits(x, n)[1..] == Bits(Half(x), n - 1);
      assert !Bits(x, n)[0];
      SilentByte(Half(x), n - 1);
      HalfOfEven(x);
    }
  }

  lemma HalfOfEven(x: bv16)
    requires !Odd(x) && Half(x) == 0
    ensures x == 0
  {}

  lemma {:induction false} SilentWire(e: bytes)
    requires Silent(Wire(e))
    ensures forall i :: 0 <= i < |e| ==> e[i] == 0
    decreases |e|
  {
    if e == [] {
    } else {
      FitsWhole(e[0] as bv16);
      assert Wire(e)[..8] == Bits(e[0] as bv16, 8);
      assert Wire(e)[8..] == Wire(e[1..]);
      SilentByte(e[0] as bv16, 8);
      assert forall i :: 1 <= i < |e| ==> e[i] == e[1..][i - 1];
      SilentWire(e[1..]);
    }
  }

  /** A frame checks exactly when the register over all of it ends at zero. */
  lemma TrailerUnique(c: bv16, t: bytes)
    requires |t| == 2 && Register(c, t) == 0
    ensures t == WireOrder(c)
  {
    var w := WireOrder(c);
    var d := Xor(t, w);
    OwnBytesSilence(c);
    RegisterXor(c, c, t, w);
    PlusZero(c);
    PlusZero(0);
    RegisterIsBitSerial(0, d);
    if !Silent(Wire(d)) {
      assert Burst(Wire(d), 0);
      BurstSeen(Wire(d), 0);
    }
    SilentWire(d);
    XorZero(t[0], w[0]);
    XorZero(t[1], w[1]);
  }

  lemma XorZero(x: bv8, y: bv8)
    ensures x ^ y == 0 ==> x == y
  {}

  lemma ResidueZero(frame: bytes)
    requires |frame| >= 2
    ensures CrcOk(frame) <==> Register(0xFFFF, frame) == 0
  {
    var body, t := frame[..|frame| - 2], frame[|frame| - 2..];
    assert frame == body + t;
    RegisterAppend(0xFFFF, body, t);
    var c := Register(0xFFFF, body);
    OwnBytesSilence(c);
    if Register(c, t) == 0 { TrailerUnique(c, t); }
  }

  /** A corrupted frame still checks exactly when the error alone is silent. */
  lemma CorruptionSeen(frame: bytes, e: bytes)
    requires CrcOk(frame) && |e| == |frame|
    ensures CrcOk(Xor(frame, e)) <==> Register(0, e) == 0
  {
    ResidueZero(frame);
    ResidueZero(Xor(frame, e));
    RegisterXor(0xFFFF, 0, frame, e);
    PlusZero(0xFFFF);
    PlusZero(Register(0, e));
  }

  // ----- odd numbers of flipped bits -----

  function Weight(bits: seq<bool>): nat {
    if bits == [] then 0 else (if bits[0] then 1 else 0) + Weight(bits[1..])
  }

  /** The parity of the bits of a register. */
  predicate Parity(x: bv16)
    decreases x
  {
    if x == 0 then false else Odd(x) != Parity(Half(x))
  }

  lemma {:induction false} ParityPlus(a: bv16, b: bv16)
    ensures Parity(Plus(a, b)) == (Parity(a) != Parity(b))
    decreases a, b
  {
    PlusZero(a);
    PlusZero(b);
    if a != 0 && b != 0 {
      PlusHalves(a, b);
      HalfSmaller(a);
      ParityPlus(Half(a), Half(b));
      ParityStep(a);
      ParityStep(b);
      ParityStep(Plus(a, b));
    }
  }

  lemma HalfSmaller(x: bv16)
    ensures x != 0 ==> Half(x) < x
  {}

  lemma ParityStep(x: bv16)
    ensures Parity(x) == (Odd(x) != Parity(Half(x)))
  {
    assert Half(0) == 0;
  }

  lemma ParityShift(x: bv16)
    ensures Parity(Shift(x)) == Parity(x)
  {
    ShiftByParity(x);
    ParityStep(x);
    ParityPlus(Half(x), 0xA001);
    ParityOfPolynomial();
  }

  /** Four terms, one of them dropped by the shift. */
  lemma ParityOfPolynomial()
    ensures Parity(0xA001)
  {
    assert Parity(0x5) == false;
    assert Parity(0xA00) == false;
    assert Parity(0x5000) == false;
  }

  lemma ParityBit(b: bool)
    ensures Parity(Bit(b)) == b
  {
    assert Parity(1);
  }

  lemma {:induction false} ParityRegister(c: bv16, bits: seq<bool>)
    ensures Parity(BitRegister(c, bits)) == (Parity(c) != (Weight(bits) % 2 == 1))
    decreases |bits|
  {
    if bits == [] {
    } else {
      var b := Bit(bits[0]);
      ParityPlus(c, b);
      ParityShift(Plus(c, b));
      ParityBit(bits[0]);
      ParityRegister(Shift(Plus(c, b)), bits[1..]);
    }
  }

  lemma OddSeen(bits: seq<bool>)
    requires Weight(bits) % 2 == 1
    ensures BitRegister(0, bits) != 0
  {
    ParityRegister(0, bits);
  }
}
