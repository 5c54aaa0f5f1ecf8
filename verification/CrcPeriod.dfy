/**
 The order of x modulo the generator is 32767, so two flipped bits hide each
 other exactly at distances that are multiples of 32767. Powers of x are
 reached by squaring, which is linear over GF(2).
 */
module CrcPeriod {
  import opened Crc
  import opened CrcAlgebra
  import opened CrcErrors

  /** The polynomial 1; the register's top bit is the constant term. */
  const ONE: bv16 := 0x8000

  lemma {:induction false} ShiftsAdd(c: bv16, m: nat, n: nat)
    ensures Shifts(c, m + n) == Shifts(Shifts(c, m), n)
    decreases m
  {
    if m == 0 {
    } else {
      ShiftsAdd(Shift(c), m - 1, n);
    }
  }

  lemma FewShifts(c: bv16)
    ensures Shifts(c, 0) == c
    ensures Shifts(c, 1) == Shift(c)
    ensures Shifts(c, 2) == Shift(Shift(c))
  {
    hide Shift;
    assert Shifts(Shift(c), 1) == Shifts(Shift(Shift(c)), 0);
  }

  lemma TwoMore(c: bv16, n: nat)
    ensures Shifts(c, n + 2) == Shift(Shift(Shifts(c, n)))
  {
    hide Shift, Shifts;
    ShiftsAdd(c, n, 2);
    FewShifts(Shifts(c, n));
  }

  // ----- squaring -----

  /** The square of the polynomial in the low `n` bits, x^(n-1) at bit 0. */
  function Square(c: bv16, n: nat): bv16
    decreases n, c
  {
    if n == 0 then 0
    else Plus(if Odd(c) then Shifts(ONE, 2 * (n - 1)) else 0, Square(Half(c), n - 1))
  }

  lemma {:induction false} SquareZero(n: nat)
    ensures Square(0, n) == 0
  {
    if n == 0 {
    } else {
      assert Half(0) == 0;
      SquareZero(n - 1);
      PlusZero(0);
    }
  }

  lemma {:induction false} SquarePlus(a: bv16, b: bv16, n: nat)
    ensures Square(Plus(a, b), n) == Plus(Square(a, n), Square(b, n))
    decreases n
  {
    PlusZero(0);
    if n == 0 {
    } else {
      var t := Shifts(ONE, 2 * (n - 1));
      var ta, tb := if Odd(a) then t else 0, if Odd(b) then t else 0;
      PlusHalves(a, b);
      SquarePlus(Half(a), Half(b), n - 1);
      PlusZero(t);
      Regroup(ta, Square(Half(a), n - 1), tb, Square(Half(b), n - 1));
    }
  }

  lemma Regroup(a: bv16, b: bv16, c: bv16, d: bv16)
    ensures Plus(Plus(a, b), Plus(c, d)) == Plus(Plus(a, c), Plus(b, d))
  {
    PlusAssociates(a, b, Plus(c, d));
    PlusAssociates(b, c, d);
    PlusCommutes(b, c);
    PlusAssociates(c, b, d);
    PlusAssociates(a, c, Plus(b, d));
  }

  /** One more place to the left raises every square by x^2. */
  lemma {:induction false} SquareRaise(c: bv16, n: nat)
    requires Fits(c, n)
    ensures Square(c, n + 1) == Shifts(Square(c, n), 2)
    decreases n
  {
    ShiftsZero(2);
    if n == 0 {
      SquareZero(1);
    } else {
      SquareRaise(Half(c), n - 1);
      var t := if Odd(c) then Shifts(ONE, 2 * (n - 1)) else 0;
      ShiftsAdd(ONE, 2 * (n - 1), 2);
      ShiftsPlus(t, Square(Half(c), n - 1), 2);
    }
  }

  // ----- squaring evaluated, four places at a time -----

  function Four(c: bv16, x3: bv16, x2: bv16, x1: bv16, x0: bv16, rest: bv16): bv16 {
    var c1 := Half(c);
    var c2 := Half(c1);
    var c3 := Half(c2);
    Plus(if Odd(c) then x3 else 0, Plus(if Odd(c1) then x2 else 0,
      Plus(if Odd(c2) then x1 else 0, Plus(if Odd(c3) then x0 else 0, rest))))
  }

  lemma SquareFour(c: bv16, n: nat)
    ensures Square(c, n + 4) ==
            Four(c, Shifts(ONE, 2 * (n + 3)), Shifts(ONE, 2 * (n + 2)), Shifts(ONE, 2 * (n + 1)),
                 Shifts(ONE, 2 * n), Square(Half(Half(Half(Half(c)))), n))
  {
    var c1 := Half(c);
    var c2 := Half(c1);
    var c3 := Half(c2);
    assert Square(c3, n + 1) == Plus(if Odd(c3) then Shifts(ONE, 2 * n) else 0, Square(Half(c3), n));
    assert Square(c2, n + 2) == Plus(if Odd(c2) then Shifts(ONE, 2 * (n + 1)) else 0, Square(c3, n + 1));
    assert Square(c1, n + 3) == Plus(if Odd(c1) then Shifts(ONE, 2 * (n + 2)) else 0, Square(c2, n + 2));
    assert Square(c, n + 4) == Plus(if Odd(c) then Shifts(ONE, 2 * (n + 3)) else 0, Square(c1, n + 3));
  }

  /** Square(c, 16) with the powers of x written out. */
  function SquareWord(c: bv16): bv16 {
    var c1 := Nibble(c);
    var c2 := Nibble(c1);
    var c3 := Nibble(c2);
    Four(c, 0x6001, 0xC007, 0xC019, 0xC061,
      Four(c1, 0xC181, 0xC601, 0xD801, 0xA001,
        Four(c2, 0x0002, 0x0008, 0x0020, 0x0080,
          Four(c3, 0x0200, 0x0800, 0x2000, 0x8000, 0))))
  }

  lemma EvenPowers()
    ensures Shifts(ONE, 0) == 0x8000
    ensures Shifts(ONE, 2) == 0x2000
    ensures Shifts(ONE, 4) == 0x0800
    ensures Shifts(ONE, 6) == 0x0200
    ensures Shifts(ONE, 8) == 0x0080
    ensures Shifts(ONE, 10) == 0x0020
    ensures Shifts(ONE, 12) == 0x0008
    ensures Shifts(ONE, 14) == 0x0002
    ensures Shifts(ONE, 16) == 0xA001
    ensures Shifts(ONE, 18) == 0xD801
    ensures Shifts(ONE, 20) == 0xC601
    ensures Shifts(ONE, 22) == 0xC181
    ensures Shifts(ONE, 24) == 0xC061
    ensures Shifts(ONE, 26) == 0xC019
    ensures Shifts(ONE, 28) == 0xC007
    ensures Shifts(ONE, 30) == 0x6001
    ensures Shifts(ONE, 32) == 0xE801
  {
    hide Shifts;
    FewShifts(ONE);
    TwoMore(ONE, 0);
    TwoMore(ONE, 2);
    TwoMore(ONE, 4);
    TwoMore(ONE, 6);
    TwoMore(ONE, 8);
    TwoMore(ONE, 10);
    TwoMore(ONE, 12);
    TwoMore(ONE, 14);
    TwoMore(ONE, 16);
    TwoMore(ONE, 18);
    TwoMore(ONE, 20);
    TwoMore(ONE, 22);
    TwoMore(ONE, 24);
    TwoMore(ONE, 26);
    TwoMore(ONE, 28);
    TwoMore(ONE, 30);
  }

  lemma SquareIsWord(c: bv16)
    ensures Square(c, 16) == SquareWord(c)
  {
    EvenPowers();
    hide Plus, Half, Odd, Shifts, Four;
    SquareFour(c, 12);
    SquareFour(Nibble(c), 8);
    SquareFour(Nibble(Nibble(c)), 4);
    SquareFour(Nibble(Nibble(Nibble(c))), 0);
  }

  // ----- squaring is the Frobenius map -----

  lemma SquareOfPolynomial()
    ensures Square(0xA001, 16) == Shifts(ONE, 32)
  {
    hide Shifts, Square;
    SquareIsWord(0xA001);
    EvenPowers();
  }

  lemma SquareShift(c: bv16)
    ensures Square(Shift(c), 16) == Shifts(Square(c, 16), 2)
  {
    hide Plus, Shift, Half, Odd, Shifts;
    FitsWhole(c);
    SquareRaise(Half(c), 15);
    var high := Square(Half(c), 15);
    ShiftByParity(c);
    if Odd(c) {
      SquarePlus(Half(c), 0xA001, 16);
      SquareOfPolynomial();
      ShiftsPlus(Shifts(ONE, 30), high, 2);
      ShiftsAdd(ONE, 30, 2);
      PlusCommutes(Shifts(high, 2), Shifts(ONE, 32));
    } else {
      PlusZero(high);
    }
  }

  /** Twice the exponent is the square. */
  lemma {:induction false} Doubling(n: nat)
    ensures Shifts(ONE, 2 * n) == Square(Shifts(ONE, n), 16)
  {
    hide Shift, Shifts, Square, SquareWord;
    if n == 0 {
      SquareOne();
      FewShifts(ONE);
    } else {
      Doubling(n - 1);
      ShiftsAdd(ONE, n - 1, 1);
      FewShifts(Shifts(ONE, n - 1));
      ShiftsAdd(ONE, 2 * (n - 1), 2);
      SquareShift(Shifts(ONE, n - 1));
    }
  }

  lemma SquareOne()
    ensures Square(ONE, 16) == ONE
  {
    hide Shifts, Square;
    SquareIsWord(ONE);
  }

  /** One step of square-and-multiply. */
  lemma Power(n: nat, v: bv16, odd: bool)
    requires Shifts(ONE, n) == v
    ensures Shifts(ONE, if odd then 2 * n + 1 else 2 * n) ==
            if odd then Shift(SquareWord(v)) else SquareWord(v)
  {
    hide Shift, Shifts, Square, SquareWord;
    Doubling(n);
    SquareIsWord(v);
    ShiftsAdd(ONE, 2 * n, 1);
    FewShifts(Shifts(ONE, 2 * n));
  }

  lemma Power32767()
    ensures Shifts(ONE, 32767) == ONE
  {
    hide Shifts;
    FewShifts(ONE);
    Power(0, 0x8000, true);
    Power(1, 0x4000, true);
    Power(3, 0x1000, true);
    Power(7, 0x0100, true);
    Power(15, 0x0001, true);
    Power(31, 0x9001, true);
    Power(63, 0xD101, true);
    Power(127, 0xC100, true);
    Power(255, 0x5001, true);
    Power(511, 0x8101, true);
    Power(1023, 0xD000, true);
    Power(2047, 0x5100, true);
    Power(4095, 0x1101, true);
    Power(8191, 0x9100, true);
    Power(16383, 0x4101, true);
  }

  lemma Power4681()
    ensures Shifts(ONE, 4681) != ONE
  {
    hide Shifts;
    FewShifts(ONE);
    Power(0, 0x8000, true);
    Power(1, 0x4000, false);
    Power(2, 0x2000, false);
    Power(4, 0x0800, true);
    Power(9, 0x0040, false);
    Power(18, 0xD801, false);
    Power(36, 0xC281, true);
    Power(73, 0x3004, false);
    Power(146, 0xCA19, false);
    Power(292, 0xC169, true);
    Power(585, 0x0F31, false);
    Power(1170, 0x672B, false);
    Power(2340, 0x8E4C, true);
  }

  lemma Power1057()
    ensures Shifts(ONE, 1057) != ONE
  {
    hide Shifts;
    FewShifts(ONE);
    Power(0, 0x8000, true);
    Power(1, 0x4000, false);
    Power(2, 0x2000, false);
    Power(4, 0x0800, false);
    Power(8, 0x0080, false);
    Power(16, 0xA001, true);
    Power(33, 0xD401, false);
    Power(66, 0xC221, false);
    Power(132, 0x0608, false);
    Power(264, 0xC049, false);
    Power(528, 0xD861, true);
  }

  lemma Power217()
    ensures Shifts(ONE, 217) != ONE
  {
    hide Shifts;
    FewShifts(ONE);
    Power(0, 0x8000, true);
    Power(1, 0x4000, true);
    Power(3, 0x1000, false);
    Power(6, 0x0200, true);
    Power(13, 0x0004, true);
    Power(27, 0xC00D, false);
    Power(54, 0xC079, false);
    Power(108, 0xDFE1, true);
  }

  // ----- the order of x is 32767 -----

  predicate Period(d: nat) {
    Shifts(ONE, d) == ONE
  }

  lemma PeriodSum(a: nat, b: nat)
    requires Period(a)
    ensures Period(a + b) <==> Period(b)
  {
    ShiftsAdd(ONE, a, b);
  }

  lemma {:induction false} PeriodMultiple(a: nat, k: nat)
    requires Period(a)
    ensures Period(k * a)
  {
    if k == 0 {
    } else {
      PeriodMultiple(a, k - 1);
      PeriodSum(a, (k - 1) * a);
      assert k * a == a + (k - 1) * a;
    }
  }

  /** Euclid: two periods have a common divisor that is a period. */
  lemma {:induction false} CommonPeriod(a: nat, b: nat) returns (g: nat, p: nat, q: nat)
    requires a > 0 && b > 0 && Period(a) && Period(b)
    ensures g > 0 && a == g * p && b == g * q && Period(g)
    decreases a + b
  {
    if a == b {
      g, p, q := a, 1, 1;
    } else if a < b {
      PeriodSum(a, b - a);
      var r;
      g, p, r := CommonPeriod(a, b - a);
      q := p + r;
    } else {
      PeriodSum(b, a - b);
      var r;
      g, r, q := CommonPeriod(a - b, b);
      p := q + r;
    }
  }

  lemma SmallDivisor(d: nat, q: nat)
    requires 1 < d <= 181 && d * q == 32767
    ensures d == 7 || d == 31 || d == 151
  {}

  lemma BigProduct(g: nat, q: nat)
    ensures g >= 182 && q >= 182 ==> g * q >= 182 * 182
  {}

  lemma NoProperPeriod(g: nat, q: nat)
    requires g * q == 32767 && g < 32767
    ensures !Period(g)
  {
    Power4681();
    Power1057();
    Power217();
    if Period(g) {
      if q <= 181 {
        SmallDivisor(q, g);
      } else {
        BigProduct(g, q);
        if g > 1 { SmallDivisor(g, q); }
        PeriodMultiple(g, 217 / g);
        PeriodMultiple(g, 1057 / g);
      }
    }
  }

  lemma OrderOfX(d: nat)
    ensures Period(d) <==> d % 32767 == 0
  {
    Power32767();
    PeriodMultiple(32767, d / 32767);
    PeriodSum(d / 32767 * 32767, d % 32767);
    if Period(d) && d % 32767 != 0 {
      var g, p, q := CommonPeriod(d % 32767, 32767);
      assert p > 0 ==> g <= g * p;
      NoProperPeriod(g, q);
    }
  }

  // ----- two flipped bits -----

  predicate TwoFlips(bits: seq<bool>, i: nat, j: nat) {
    i < j < |bits| && forall k :: 0 <= k < |bits| ==> (bits[k] <==> k == i || k == j)
  }

  lemma {:induction false} ZeroFeed(c: bv16, bits: seq<bool>)
    requires Silent(bits)
    ensures BitRegister(c, bits) == Shifts(c, |bits|)
    decreases |bits|
  {
    if bits == [] {
    } else {
      PlusZero(c);
      ZeroFeed(Shift(c), bits[1..]);
    }
  }

  lemma ZerosThenOne(c: bv16, a: seq<bool>)
    requires Silent(a)
    ensures BitRegister(c, a + [true]) == Shift(Plus(Shifts(c, |a|), 1))
  {
    BitRegisterAppend(c, a, [true]);
    ZeroFeed(c, a);
  }

  lemma TwoOnes(a: seq<bool>, b: seq<bool>, z: seq<bool>)
    requires Silent(a) && Silent(b) && Silent(z)
    ensures BitRegister(0, (a + [true]) + ((b + [true]) + z)) ==
            Shifts(Shift(Plus(Shifts(1, |b| + 1), 1)), |z|)
  {
    BitRegisterAppend(0, a + [true], (b + [true]) + z);
    ZerosThenOne(0, a);
    ShiftsZero(|a|);
    PlusZero(1);
    BitRegisterAppend(Shift(1), b + [true], z);
    ZerosThenOne(Shift(1), b);
    ZeroFeed(BitRegister(Shift(1), b + [true]), z);
  }

  lemma TwoFlipsRegister(bits: seq<bool>, i: nat, j: nat)
    requires TwoFlips(bits, i, j)
    ensures BitRegister(0, bits) == Shifts(Shift(Plus(Shifts(1, j - i), 1)), |bits| - j - 1)
  {
    var a, b, z := bits[..i], bits[i + 1..j], bits[j + 1..];
    assert bits == (a + [bits[i]]) + ((b + [bits[j]]) + z);
    TwoOnes(a, b, z);
  }

  /** Two flips go unseen exactly at a multiple of 32767 bits apart. */
  lemma TwoFlipsSeen(bits: seq<bool>, i: nat, j: nat)
    requires TwoFlips(bits, i, j)
    ensures BitRegister(0, bits) == 0 <==> (j - i) % 32767 == 0
  {
    var p := Shifts(1, j - i);
    var tail := |bits| - j - 1;
    TwoFlipsRegister(bits, i, j);
    BackToOne(j - i);
    OrderOfX(j - i);
    ShiftsZero(tail);
    PlusZero(1);
    if BitRegister(0, bits) == 0 {
      ShiftsInjective(Shift(Plus(p, 1)), 0, tail);
      ShiftInjective(Plus(p, 1), 0);
      PlusCancels(p, 1);
    }
  }

  lemma BackToOne(d: nat)
    ensures Shifts(1, d) == 1 <==> Period(d)
  {
    assert Shifts(ONE, 5) == 0x0400;
    assert Shifts(0x0400, 5) == 0x0020;
    ShiftsAdd(ONE, 5, 5);
    ShiftsAdd(ONE, 10, 5);
    ShiftsAdd(ONE, 15, d);
    ShiftsAdd(ONE, d, 15);
    if Shifts(1, d) == 1 { ShiftsInjective(Shifts(ONE, d), ONE, 15); }
  }

  // ----- the errors that are always seen -----

  /** An odd number of flips, or all flips within sixteen bits, or two flips
      within a block of at most 32767 bits. */
  ghost predicate Visible(w: seq<bool>) {
    || Weight(w) % 2 == 1
    || (exists p: nat :: Burst(w, p))
    || (Weight(w) == 2 && |w| <= 32767)
  }

  lemma {:induction false} WeightZero(bits: seq<bool>)
    requires Weight(bits) == 0
    ensures Silent(bits)
    decreases |bits|
  {
    if bits == [] {
    } else {
      WeightZero(bits[1..]);
      assert forall i :: 1 <= i < |bits| ==> bits[i] == bits[1..][i - 1];
    }
  }

  lemma {:induction false} WeightOne(bits: seq<bool>) returns (i: nat)
    requires Weight(bits) == 1
    ensures i < |bits| && forall k :: 0 <= k < |bits| ==> (bits[k] <==> k == i)
    decreases |bits|
  {
    assert forall k :: 1 <= k < |bits| ==> bits[k] == bits[1..][k - 1];
    if bits[0] {
      WeightZero(bits[1..]);
      i := 0;
    } else {
      var r := WeightOne(bits[1..]);
      i := r + 1;
    }
  }

  lemma {:induction false} WeightTwo(bits: seq<bool>) returns (i: nat, j: nat)
    requires Weight(bits) == 2
    ensures TwoFlips(bits, i, j)
    decreases |bits|
  {
    assert forall k :: 1 <= k < |bits| ==> bits[k] == bits[1..][k - 1];
    if bits[0] {
      var r := WeightOne(bits[1..]);
      i, j := 0, r + 1;
    } else {
      var a, b := WeightTwo(bits[1..]);
      i, j := a + 1, b + 1;
    }
  }

  lemma VisibleSeen(w: seq<bool>)
    requires Visible(w)
    ensures BitRegister(0, w) != 0
  {
    if Weight(w) % 2 == 1 {
      OddSeen(w);
    } else if Weight(w) == 2 && |w| <= 32767 {
      var i, j := WeightTwo(w);
      TwoFlipsSeen(w, i, j);
    } else {
      var p: nat :| Burst(w, p);
      BurstSeen(w, p);
    }
  }

  /** Every change of one, two or three bits of a block of up to 32767 bits is visible. */
  lemma FewFlipsVisible(w: seq<bool>)
    requires 1 <= Weight(w) <= 3 && |w| <= 32767
    ensures Visible(w)
  {
    assert Weight(w) == 1 || Weight(w) == 2 || Weight(w) == 3;
  }

  /** No visible error leaves a checked frame checking. */
  lemma VisibleBreaksCrc(frame: bytes, e: bytes)
    requires CrcOk(frame) && |e| == |frame| && Visible(Wire(e))
    ensures !CrcOk(Xor(frame, e))
  {
    CorruptionSeen(frame, e);
    RegisterIsBitSerial(0, e);
    VisibleSeen(Wire(e));
  }
}
