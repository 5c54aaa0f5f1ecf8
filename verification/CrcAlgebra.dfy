/**
 What the register machine computes: a remainder of polynomials over GF(2).
 From it, every statement about which transmission errors the CRC can miss.
 */
module CrcAlgebra {
  import opened Crc

  // ----- one shift is linear and injective -----

  function Half(x: bv16): bv16 {
    x >> 1
  }

  predicate Odd(x: bv16) {
    x & 1 == 1
  }

  lemma PlusCommutes(a: bv16, b: bv16)
    ensures Plus(a, b) == Plus(b, a)
  {}

  lemma PlusZero(a: bv16)
    ensures Plus(a, 0) == a == Plus(0, a) && Plus(a, a) == 0
  {}

  lemma PlusCancels(a: bv16, b: bv16)
    requires Plus(a, b) == 0
    ensures a == b
  {}

  lemma PlusAssociates(a: bv16, b: bv16, c: bv16)
    ensures Plus(Plus(a, b), c) == Plus(a, Plus(b, c))
  {}

  lemma ShiftOddOdd(a: bv16, b: bv16)
    requires a & 1 == 1 && b & 1 == 1
    ensures Shift(a ^ b) == Shift(a) ^ Shift(b)
  {}

  lemma ShiftOddEven(a: bv16, b: bv16)
    requires a & 1 == 1 && b & 1 == 0
    ensures Shift(a ^ b) == Shift(a) ^ Shift(b)
  {}

  lemma ShiftEvenEven(a: bv16, b: bv16)
    requires a & 1 == 0 && b & 1 == 0
    ensures Shift(a ^ b) == Shift(a) ^ Shift(b)
  {}

  lemma ShiftPlus(a: bv16, b: bv16)
    ensures Shift(Plus(a, b)) == Plus(Shift(a), Shift(b))
  {
    if a & 1 == 0 && b & 1 == 0 {
      ShiftEvenEven(a, b);
    } else if a & 1 == 1 && b & 1 == 1 {
      ShiftOddOdd(a, b);
    } else if a & 1 == 1 {
      ShiftOddEven(a, b);
    } else {
      ShiftOddEven(b, a);
      PlusCommutes(a, b);
      PlusCommutes(Shift(a), Shift(b));
    }
  }

  lemma ShiftInjective(a: bv16, b: bv16)
    requires Shift(a) == Shift(b)
    ensures a == b
  {}

  lemma {:induction false} ShiftsPlus(a: bv16, b: bv16, n: nat)
    ensures Shifts(Plus(a, b), n) == Plus(Shifts(a, n), Shifts(b, n))
    decreases n
  {
    if n == 0 {
    } else {
      ShiftPlus(a, b);
      ShiftsPlus(Shift(a), Shift(b), n - 1);
    }
  }

  lemma {:induction false} ShiftsInjective(a: bv16, b: bv16, n: nat)
    requires Shifts(a, n) == Shifts(b, n)
    ensures a == b
    decreases n
  {
    if n == 0 {
    } else {
      ShiftsInjective(Shift(a), Shift(b), n - 1);
      ShiftInjective(a, b);
    }
  }

  lemma ShiftsZero(n: nat)
    ensures Shifts(0, n) == 0
  {
    if n > 0 { ShiftsZero(n - 1); }
  }

  // ----- the register is affine in the message -----

  function Xor(a: bytes, b: bytes): (r: bytes)
    requires |a| == |b|
    ensures |r| == |a|
  {
    seq(|a|, i requires 0 <= i < |a| => a[i] ^ b[i])
  }

  lemma PlusByte(c: bv16, d: bv16, x: bv8, y: bv8)
    ensures Plus(Plus(c, d), (x ^ y) as bv16) == Plus(Plus(c, x as bv16), Plus(d, y as bv16))
  {}

  lemma AbsorbPlus(c: bv16, d: bv16, x: bv8, y: bv8)
    ensures Absorb(Plus(c, d), x ^ y) == Plus(Absorb(c, x), Absorb(d, y))
  {
    PlusByte(c, d, x, y);
    ShiftsPlus(Plus(c, x as bv16), Plus(d, y as bv16), 8);
  }

  lemma {:induction false} RegisterXor(c: bv16, d: bv16, m: bytes, e: bytes)
    requires |m| == |e|
    ensures Register(Plus(c, d), Xor(m, e)) == Plus(Register(c, m), Register(d, e))
    decreases |m|
  {
    if m == [] {
    } else {
      AbsorbPlus(c, d, m[0], e[0]);
      assert Xor(m, e)[1..] == Xor(m[1..], e[1..]);
      RegisterXor(Absorb(c, m[0]), Absorb(d, e[0]), m[1..], e[1..]);
    }
  }

  // ----- the wire: bits of each byte, low bit first -----

  function Bits(c: bv16, n: nat): (s: seq<bool>)
    ensures |s| == n
    decreases n, c
  {
    if n == 0 then [] else [Odd(c)] + Bits(Half(c), n - 1)
  }

  function Wire(data: bytes): (s: seq<bool>)
    ensures |s| == 8 * |data|
  {
    if data == [] then [] else Bits(data[0] as bv16, 8) + Wire(data[1..])
  }

  function Bit(b: bool): bv16 {
    if b then 1 else 0
  }

  function BitRegister(c: bv16, bits: seq<bool>): bv16
    decreases |bits|
  {
    if bits == [] then c else BitRegister(Shift(Plus(c, Bit(bits[0]))), bits[1..])
  }

  lemma BitRegisterAppend(c: bv16, a: seq<bool>, b: seq<bool>)
    ensures BitRegister(c, a + b) == BitRegister(BitRegister(c, a), b)
    decreases |a|
  {
    if a == [] {
      assert a + b == b;
    } else {
      assert (a + b)[1..] == a[1..] + b;
      BitRegisterAppend(Shift(Plus(c, Bit(a[0]))), a[1..], b);
    }
  }

  function ClearLow(x: bv16): bv16 {
    x & 0xFFFE
  }

  lemma SplitLowBit(x: bv16)
    ensures Plus(Bit(Odd(x)), ClearLow(x)) == x
    ensures Shift(ClearLow(x)) == Half(x)
  {}

  lemma FeedLowBit(c: bv16, x: bv16)
    ensures Plus(Shift(Plus(c, Bit(Odd(x)))), Half(x)) == Shift(Plus(c, x))
  {
    SplitLowBit(x);
    PlusAssociates(c, Bit(Odd(x)), ClearLow(x));
    ShiftPlus(Plus(c, Bit(Odd(x))), ClearLow(x));
  }

  predicate AtMost(x: bv16, y: bv16) {
    x <= y
  }

  /** `x` has no bit at position `n` or above. */
  predicate Fits(x: bv16, n: nat)
    decreases n
  {
    if n == 0 then x == 0 else Fits(Half(x), n - 1)
  }

  lemma HalfMonotone(x: bv16, y: bv16)
    requires AtMost(x, y)
    ensures AtMost(Half(x), Half(y))
  {}

  lemma {:induction false} FitsBelow(x: bv16, m: bv16, n: nat)
    requires AtMost(x, m) && Fits(m, n)
    ensures Fits(x, n)
    decreases n
  {
    if n == 0 {
    } else {
      HalfMonotone(x, m);
      FitsBelow(Half(x), Half(m), n - 1);
    }
  }

  lemma FullRegisters()
    ensures Fits(0xFF, 8) && Fits(0xFFFF, 16)
  {}

  lemma FitsWhole(x: bv16)
    ensures Fits(x, 16)
    ensures AtMost(x, 0xFF) ==> Fits(x, 8)
  {
    FullRegisters();
    FitsBelow(x, 0xFFFF, 16);
    if AtMost(x, 0xFF) { FitsBelow(x, 0xFF, 8); }
  }

  lemma {:induction false} FeedBits(c: bv16, x: bv16, n: nat)
    requires Fits(x, n)
    ensures BitRegister(c, Bits(x, n)) == Shifts(Plus(c, x), n)
    decreases n
  {
    if n == 0 {
      PlusZero(c);
    } else {
      FeedLowBit(c, x);
      FeedBits(Shift(Plus(c, Bit(Odd(x)))), Half(x), n - 1);
      assert Bits(x, n)[1..] == Bits(Half(x), n - 1);
    }
  }

  /** The byte loop is the bit-serial register fed with the wire bits. */
  lemma {:induction false} RegisterIsBitSerial(c: bv16, data: bytes)
    ensures Register(c, data) == BitRegister(c, Wire(data))
    decreases |data|
  {
    if data == [] {
    } else {
      FitsWhole(data[0] as bv16);
      FeedBits(c, data[0] as bv16, 8);
      BitRegisterAppend(c, Bits(data[0] as bv16, 8), Wire(data[1..]));
      RegisterIsBitSerial(Absorb(c, data[0]), data[1..]);
    }
  }

  // ----- long division by x^16 + x^15 + x^2 + 1 -----

  /** Coefficients of the generator, leading one first. */
  const GENERATOR: seq<bool> := [true, true] + Zeros(12) + [true, false, true]

  function Zeros(n: nat): (s: seq<bool>)
    ensures |s| == n && forall i :: 0 <= i < n ==> !s[i]
  {
    seq(n, i => false)
  }

  /** Adds `q` to the leading terms of `p`. */
  function AddLeading(p: seq<bool>, q: seq<bool>): (r: seq<bool>)
    requires |q| <= |p|
    ensures |r| == |p|
  {
    seq(|p|, i requires 0 <= i < |p| => if i < |q| then p[i] != q[i] else p[i])
  }

  /** The schoolbook remainder, leading coefficient first. */
  function Remainder(p: seq<bool>): (r: seq<bool>)
    ensures |r| == if |p| <= 16 then |p| else 16
    decreases |p|
  {
    if |p| <= 16 then p
    else Remainder(if p[0] then AddLeading(p, GENERATOR)[1..] else p[1..])
  }

  lemma {:induction false} BitsPlus(a: bv16, b: bv16, n: nat)
    ensures Bits(Plus(a, b), n) == AddLeading(Bits(a, n), Bits(b, n))
    decreases n
  {
    hide Plus, Half, Odd;
    if n == 0 {
    } else {
      PlusHalves(a, b);
      BitsPlus(Half(a), Half(b), n - 1);
    }
  }

  lemma PlusHalves(a: bv16, b: bv16)
    ensures Half(Plus(a, b)) == Plus(Half(a), Half(b))
    ensures Odd(Plus(a, b)) == (Odd(a) != Odd(b))
  {}

  /** The bits of a half are the bits moved down, a zero on top. */
  lemma {:induction false} BitsOfHalf(x: bv16, n: nat)
    requires Fits(x, n)
    ensures Bits(x, n + 1) == Bits(x, n) + [false]
    decreases n
  {
    if n == 0 {
    } else {
      BitsOfHalf(Half(x), n - 1);
    }
  }

  lemma NextBit(x: bv16, n: nat)
    ensures Bits(x, n + 1) == [Odd(x)] + Bits(Half(x), n)
  {}

  lemma NextClear(x: bv16, y: bv16, k: nat, n: nat)
    requires k < n && !Odd(y) && Bits(x, n) == Zeros(k) + Bits(y, n - k)
    ensures Bits(x, n) == Zeros(k + 1) + Bits(Half(y), n - k - 1)
  {
    hide Half, Odd;
    NextBit(y, n - k - 1);
    assert Zeros(k) + [false] == Zeros(k + 1);
    assert Zeros(k) + ([false] + Bits(Half(y), n - k - 1)) == (Zeros(k) + [false]) + Bits(Half(y), n - k - 1);
  }

  lemma BitsOfPolynomial()
    ensures Bits(0xA001, 16) == GENERATOR[1..]
  {
    hide Bits;
    NextBit(0xA001, 15);
    assert Bits(0x5000, 15) == Zeros(0) + Bits(0x5000, 15);
    NextClear(0x5000, 0x5000, 0, 15);
    NextClear(0x5000, 0x2800, 1, 15);
    NextClear(0x5000, 0x1400, 2, 15);
    NextClear(0x5000, 0x0A00, 3, 15);
    NextClear(0x5000, 0x0500, 4, 15);
    NextClear(0x5000, 0x0280, 5, 15);
    NextClear(0x5000, 0x0140, 6, 15);
    NextClear(0x5000, 0x00A0, 7, 15);
    NextClear(0x5000, 0x0050, 8, 15);
    NextClear(0x5000, 0x0028, 9, 15);
    NextClear(0x5000, 0x0014, 10, 15);
    NextClear(0x5000, 0x000A, 11, 15);
    BitsOfFive();
  }

  lemma BitsOfFive()
    ensures Bits(5, 3) == [true, false, true]
  {
    hide Bits;
    NextBit(5, 2);
    NextBit(2, 1);
    NextBit(1, 0);
    assert Bits(0, 0) == [];
  }

  lemma HalfBits(x: bv16)
    ensures Bits(Half(x), 16) == Bits(x, 16)[1..] + [false]
  {
    FitsWhole(x);
    BitsOfHalf(x, 16);
    assert Bits(x, 17)[1..] == Bits(Half(x), 16);
  }

  lemma ShiftByParity(x: bv16)
    ensures Shift(x) == if Odd(x) then Plus(Half(x), 0xA001) else Half(x)
  {}

  lemma ShiftBits(x: bv16)
    ensures Bits(Shift(x), 16) ==
            if Odd(x) then AddLeading(Bits(x, 16)[1..] + [false], GENERATOR[1..])
            else Bits(x, 16)[1..] + [false]
  {
    ShiftByParity(x);
    HalfBits(x);
    BitsPlus(Half(x), 0xA001, 16);
    BitsOfPolynomial();
  }

  /** The dividend: message times x^16, the register added to its front. */
  function Dividend(c: bv16, m: seq<bool>): (p: seq<bool>)
    ensures |p| == |m| + 16
  {
    AddLeading(m + Zeros(16), Bits(c, 16))
  }

  /** The register is the remainder of the message, started value and all. */
  lemma {:induction false} RegisterIsRemainder(c: bv16, m: seq<bool>)
    ensures Bits(BitRegister(c, m), 16) == Remainder(Dividend(c, m))
    decreases |m|
  {
    if m == [] {
      assert Dividend(c, m) == Bits(c, 16);
    } else {
      var x := Plus(c, Bit(m[0]));
      DividendStep(c, m);
      RegisterIsRemainder(Shift(x), m[1..]);
    }
  }

  /** Adding one message bit touches the leading bit only. */
  lemma BitsPlusBit(c: bv16, b: bool)
    ensures Bits(Plus(c, Bit(b)), 16) == [Odd(c) != b] + Bits(c, 16)[1..]
    ensures Odd(Plus(c, Bit(b))) == (Odd(c) != b) == (Bits(c, 16)[0] != b)
  {
    PlusHalves(c, Bit(b));
    assert Half(Bit(b)) == 0;
    PlusZero(Half(c));
  }

  lemma DividendStep(c: bv16, m: seq<bool>)
    requires m != []
    ensures var p := Dividend(c, m);
            Dividend(Shift(Plus(c, Bit(m[0]))), m[1..]) ==
            if p[0] then AddLeading(p, GENERATOR)[1..] else p[1..]
  {
    hide Shift, Plus, Odd, Bits, Bit;
    var x := Plus(c, Bit(m[0]));
    var p := Dividend(c, m);
    BitsPlusBit(c, m[0]);
    assert p[0] == Odd(x);
    ShiftBits(x);
    assert m[1..] + Zeros(16) == (m + Zeros(16))[1..];
    assert Dividend(Shift(x), m[1..]) == if p[0] then AddLeading(p, GENERATOR)[1..] else p[1..];
  }
}
