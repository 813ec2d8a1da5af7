/**
 * The period of the packet CRC: the powers of x modulo the generator come back to one
 * every 32767 steps and no sooner, so two flipped bits go unnoticed only at a distance
 * that is a multiple of 32767.
 */
module Period {
  import opened Bytes
  import opened Crc16
  import opened BitCrc

  const PERIOD := 32767

  // ----- multiplying registers as polynomials -----

  /** One step of Horner's rule: the sum so far times x, plus c when the leading bit of y is set. */
  function HornerStep(y: bv16, c: bv16, sum: bv16): bv16 {
    Add(Shift(sum), if TopBit(y) then c else 0)
  }

  /** Adds the product of c and the n topmost bits of y to a sum moved up by n places. */
  function Horner(y: bv16, c: bv16, n: nat, sum: bv16): bv16
    decreases n
  {
    if n == 0 then sum else Horner(Double(y), c, n - 1, HornerStep(y, c, sum))
  }

  function Mul(y: bv16, c: bv16): bv16 {
    Horner(y, c, 16, 0)
  }

  lemma HornerNone(y: bv16, c: bv16, sum: bv16)
    ensures Horner(y, c, 0, sum) == sum
  {
  }

  lemma HornerOne(y: bv16, c: bv16, n: nat, sum: bv16)
    ensures Horner(y, c, n + 1, sum) == Horner(Double(y), c, n, HornerStep(y, c, sum))
  {
  }

  lemma HornerFour(y: bv16, c: bv16, n: nat, sum: bv16)
    ensures var y1 := Double(y);
            var y2 := Double(y1);
            var y3 := Double(y2);
            var s1 := HornerStep(y, c, sum);
            var s2 := HornerStep(y1, c, s1);
            var s3 := HornerStep(y2, c, s2);
            Horner(y, c, n + 4, sum) == Horner(Double(y3), c, n, HornerStep(y3, c, s3))
  {
    hide Horner, HornerStep, Double;
    var y1 := Double(y);
    var y2 := Double(y1);
    var s1 := HornerStep(y, c, sum);
    var s2 := HornerStep(y1, c, s1);
    HornerOne(y, c, n + 3, sum);
    HornerOne(y1, c, n + 2, s1);
    HornerOne(y2, c, n + 1, s2);
    HornerOne(Double(y2), c, n, HornerStep(y2, c, s2));
  }

  lemma ShiftsOfZero(m: nat)
    ensures Shifts(0, m) == 0
  {
    hide Shifts;
    ShiftsZero(0, m);
  }

  lemma ShiftCommutes(x: bv16, m: nat)
    ensures Shift(Shifts(x, m)) == Shifts(Shift(x), m)
  {
    hide Shifts, Shift;
    ShiftsAdd(x, m, 1);
    ShiftsAdd(x, 1, m);
    UnfoldShifts(x, 1);
    UnfoldShifts(Shift(x), 0);
    UnfoldShifts(Shifts(x, m), 1);
    UnfoldShifts(Shift(Shifts(x, m)), 0);
  }

  /** Horner's rule commutes with multiplication by a power of x. */
  lemma {:induction false} HornerShifts(y: bv16, n: nat, sum: bv16, m: nat)
    ensures Horner(y, Shifts(1, m), n, Shifts(sum, m)) == Shifts(Horner(y, 1, n, sum), m)
    decreases n
  {
    hide Shifts, Shift, Add, TopBit, Double;
    if n > 0 {
      var bit := if TopBit(y) then 1 else 0;
      ShiftCommutes(sum, m);
      ShiftsOfZero(m);
      ShiftsLinear(Shift(sum), bit, m);
      HornerShifts(Double(y), n - 1, HornerStep(y, 1, sum), m);
    }
  }

  /** The next bit of y enters at the bottom of a sum with room at its top. */
  function Enter(y: bv16, sum: bv16): bv16 {
    (sum << 1) | (y >> 15)
  }

  lemma StepEnters(y: bv16, sum: bv16)
    requires !TopBit(sum)
    ensures HornerStep(y, 1, sum) == Enter(y, sum)
  {
    hide Shift, Add, Double, Enter;
    ShiftCases(sum);
    if TopBit(y) {
      EnterOne(y, sum);
    } else {
      EnterZero(y, sum);
    }
  }

  lemma EnterOne(y: bv16, sum: bv16)
    requires TopBit(y)
    ensures Add(Double(sum), 1) == Enter(y, sum)
  {
  }

  lemma EnterZero(y: bv16, sum: bv16)
    requires !TopBit(y)
    ensures Add(Double(sum), 0) == Enter(y, sum)
  {
  }

  function EnterFour(y: bv16, sum: bv16): bv16 {
    (sum << 4) | (y >> 12)
  }

  lemma EnterRoom(y: bv16, sum: bv16)
    requires sum & 0xF000 == 0
    ensures !TopBit(sum) && !TopBit(Enter(y, sum)) && !TopBit(Enter(Double(y), Enter(y, sum)))
    ensures !TopBit(Enter(Double(Double(y)), Enter(Double(y), Enter(y, sum))))
  {
  }

  lemma EnterTimesFour(y: bv16, sum: bv16)
    ensures Enter(Double(Double(Double(y))), Enter(Double(Double(y)), Enter(Double(y), Enter(y, sum))))
         == EnterFour(y, sum)
  {
  }

  lemma HornerQuad(y: bv16, n: nat, sum: bv16)
    requires sum & 0xF000 == 0
    ensures Horner(y, 1, n + 4, sum) == Horner(Double(Double(Double(Double(y)))), 1, n, EnterFour(y, sum))
  {
    hide Horner, HornerStep, Double, TopBit, Enter, EnterFour;
    var y1 := Double(y);
    var y2 := Double(y1);
    var s1 := Enter(y, sum);
    var s2 := Enter(y1, s1);
    HornerFour(y, 1, n, sum);
    EnterRoom(y, sum);
    StepEnters(y, sum);
    StepEnters(y1, s1);
    StepEnters(y2, s2);
    StepEnters(Double(y2), Enter(y2, s2));
    EnterTimesFour(y, sum);
  }

  function DoubleFour(y: bv16): bv16 {
    Double(Double(Double(Double(y))))
  }

  lemma EnterAll(y: bv16)
    ensures var y1 := DoubleFour(y);
            var y2 := DoubleFour(y1);
            var y3 := DoubleFour(y2);
            EnterFour(y3, EnterFour(y2, EnterFour(y1, EnterFour(y, 0)))) == y
  {
  }

  lemma EnterRooms(y: bv16)
    ensures var y1 := DoubleFour(y);
            var y2 := DoubleFour(y1);
            && EnterFour(y, 0) & 0xF000 == 0
            && EnterFour(y1, EnterFour(y, 0)) & 0xF000 == 0
            && EnterFour(y2, EnterFour(y1, EnterFour(y, 0))) & 0xF000 == 0
  {
  }

  lemma MulOne(y: bv16)
    ensures Mul(y, 1) == y
  {
    hide Horner, EnterFour, Double;
    var y1 := DoubleFour(y);
    var y2 := DoubleFour(y1);
    var y3 := DoubleFour(y2);
    EnterRooms(y);
    HornerQuad(y, 12, 0);
    HornerQuad(y1, 8, EnterFour(y, 0));
    HornerQuad(y2, 4, EnterFour(y1, EnterFour(y, 0)));
    HornerQuad(y3, 0, EnterFour(y2, EnterFour(y1, EnterFour(y, 0))));
    HornerNone(DoubleFour(y3), 1, EnterFour(y3, EnterFour(y2, EnterFour(y1, EnterFour(y, 0)))));
    EnterAll(y);
  }

  /** Multiplying by the m-th power of x is m division steps. */
  lemma MulIsShifts(y: bv16, m: nat)
    ensures Mul(y, Shifts(1, m)) == Shifts(y, m)
  {
    hide Shifts, Horner;
    HornerShifts(y, 16, 0, m);
    ShiftsOfZero(m);
    MulOne(y);
  }

  lemma PowersMultiply(m: nat, n: nat, p: bv16, q: bv16)
    requires Shifts(1, m) == p && Shifts(1, n) == q
    ensures Shifts(1, m + n) == Mul(p, q)
  {
    hide Shifts, Mul;
    ShiftsAdd(1, m, n);
    MulIsShifts(p, n);
  }

  lemma ShiftsFour(x: bv16, n: nat)
    ensures Shifts(x, n + 4) == Shifts(Shift(Shift(Shift(Shift(x)))), n)
  {
    hide Shifts, Shift;
    ShiftsAdd(x, 4, n);
    Shifts4(x);
  }

  // ----- some powers of x -----

  lemma Power16()
    ensures Shifts(1, 16) == 0x1021
  {
    hide Shifts;
    ShiftsFour(0x0001, 12);
    ShiftsFour(0x0010, 8);
    ShiftsFour(0x0100, 4);
    ShiftsFour(0x1000, 0);
    UnfoldShifts(0x1021, 0);
  }

  lemma Square16()
    ensures Mul(0x1021, 0x1021) == 0x3730
  {
    hide Horner;
    HornerFour(0x1021, 0x1021, 12, 0x0000);
    HornerFour(0x0210, 0x1021, 8, 0x1021);
    HornerFour(0x2100, 0x1021, 4, 0x1231);
    HornerFour(0x1000, 0x1021, 0, 0x1373);
    HornerNone(0, 0x1021, 0x3730);
  }

  lemma Square32()
    ensures Mul(0x3730, 0x3730) == 0xB861
  {
    hide Horner;
    HornerFour(0x3730, 0x3730, 12, 0x0000);
    HornerFour(0x7300, 0x3730, 8, 0x5950);
    HornerFour(0x3000, 0x3730, 4, 0x4035);
    HornerFour(0x0000, 0x3730, 0, 0x1A84);
    HornerNone(0, 0x3730, 0xB861);
  }

  lemma Square64()
    ensures Mul(0xB861, 0xB861) == 0xAEFC
  {
    hide Horner;
    HornerFour(0xB861, 0xB861, 12, 0x0000);
    HornerFour(0x8610, 0xB861, 8, 0x4B2F);
    HornerFour(0x6100, 0xB861, 4, 0x61D9);
    HornerFour(0x1000, 0xB861, 0, 0xDC73);
    HornerNone(0, 0xB861, 0xAEFC);
  }

  lemma Square128()
    ensures Mul(0xAEFC, 0xAEFC) == 0x8E29
  {
    hide Horner;
    HornerFour(0xAEFC, 0xAEFC, 12, 0x0000);
    HornerFour(0xEFC0, 0xAEFC, 8, 0x6A9C);
    HornerFour(0xFC00, 0xAEFC, 4, 0x3828);
    HornerFour(0xC000, 0xAEFC, 0, 0xED31);
    HornerNone(0, 0xAEFC, 0x8E29);
  }

  lemma Square256()
    ensures Mul(0x8E29, 0x8E29) == 0x13FC
  {
    hide Horner;
    HornerFour(0x8E29, 0x8E29, 12, 0x0000);
    HornerFour(0xE290, 0x8E29, 8, 0x31CC);
    HornerFour(0x2900, 0x8E29, 4, 0x09FA);
    HornerFour(0x9000, 0x8E29, 0, 0x93D3);
    HornerNone(0, 0x8E29, 0x13FC);
  }

  lemma Square512()
    ensures Mul(0x13FC, 0x13FC) == 0x36C4
  {
    hide Horner;
    HornerFour(0x13FC, 0x13FC, 12, 0x0000);
    HornerFour(0x3FC0, 0x13FC, 8, 0x13FC);
    HornerFour(0xFC00, 0x13FC, 4, 0x1BE5);
    HornerFour(0xC000, 0x13FC, 0, 0x4A65);
    HornerNone(0, 0x13FC, 0x36C4);
  }

  lemma Square1024()
    ensures Mul(0x36C4, 0x36C4) == 0xFD50
  {
    hide Horner;
    HornerFour(0x36C4, 0x36C4, 12, 0x0000);
    HornerFour(0x6C40, 0x36C4, 8, 0x5B4C);
    HornerFour(0xC400, 0x36C4, 4, 0x52FD);
    HornerFour(0x4000, 0x36C4, 0, 0x0264);
    HornerNone(0, 0x36C4, 0xFD50);
  }

  lemma Square2048()
    ensures Mul(0xFD50, 0xFD50) == 0xAA9E
  {
    hide Horner;
    HornerFour(0xFD50, 0xFD50, 12, 0x0000);
    HornerFour(0xD500, 0xFD50, 8, 0x4895);
    HornerFour(0x5000, 0xFD50, 4, 0x6BC0);
    HornerFour(0x0000, 0xFD50, 0, 0xE4B5);
    HornerNone(0, 0xFD50, 0xAA9E);
  }

  lemma Square4096()
    ensures Mul(0xAA9E, 0xAA9E) == 0x881C
  {
    hide Horner;
    HornerFour(0xAA9E, 0xAA9E, 12, 0x0000);
    HornerFour(0xA9E0, 0xAA9E, 8, 0x4148);
    HornerFour(0x9E00, 0xAA9E, 4, 0x154C);
    HornerFour(0xE000, 0xAA9E, 0, 0xEA2A);
    HornerNone(0, 0xAA9E, 0x881C);
  }

  lemma Square8192()
    ensures Mul(0x881C, 0x881C) == 0x4458
  {
    hide Horner;
    HornerFour(0x881C, 0x881C, 12, 0x0000);
    HornerFour(0x81C0, 0x881C, 8, 0x0064);
    HornerFour(0x1C00, 0x881C, 4, 0x0624);
    HornerFour(0xC000, 0x881C, 0, 0xEA5C);
    HornerNone(0, 0x881C, 0x4458);
  }

  lemma Square16384()
    ensures Mul(0x4458, 0x4458) == 0x0002
  {
    hide Horner;
    HornerFour(0x4458, 0x4458, 12, 0x0000);
    HornerFour(0x4580, 0x4458, 8, 0x0141);
    HornerFour(0x5800, 0x4458, 4, 0x1551);
    HornerFour(0x8000, 0x4458, 0, 0x0028);
    HornerNone(0, 0x4458, 0x0002);
  }

  /** The powers whose exponents are powers of two. */
  lemma Squares()
    ensures Shifts(1, 16) == 0x1021
    ensures Shifts(1, 32) == 0x3730
    ensures Shifts(1, 64) == 0xB861
    ensures Shifts(1, 128) == 0xAEFC
    ensures Shifts(1, 256) == 0x8E29
    ensures Shifts(1, 512) == 0x13FC
    ensures Shifts(1, 1024) == 0x36C4
    ensures Shifts(1, 2048) == 0xFD50
    ensures Shifts(1, 4096) == 0xAA9E
    ensures Shifts(1, 8192) == 0x881C
    ensures Shifts(1, 16384) == 0x4458
    ensures Shifts(1, 32768) == 0x0002
  {
    hide Shifts, Mul;
    Power16();
    Square16();
    PowersMultiply(16, 16, 0x1021, 0x1021);
    Square32();
    PowersMultiply(32, 32, 0x3730, 0x3730);
    Square64();
    PowersMultiply(64, 64, 0xB861, 0xB861);
    Square128();
    PowersMultiply(128, 128, 0xAEFC, 0xAEFC);
    Square256();
    PowersMultiply(256, 256, 0x8E29, 0x8E29);
    Square512();
    PowersMultiply(512, 512, 0x13FC, 0x13FC);
    Square1024();
    PowersMultiply(1024, 1024, 0x36C4, 0x36C4);
    Square2048();
    PowersMultiply(2048, 2048, 0xFD50, 0xFD50);
    Square4096();
    PowersMultiply(4096, 4096, 0xAA9E, 0xAA9E);
    Square8192();
    PowersMultiply(8192, 8192, 0x881C, 0x881C);
    Square16384();
    PowersMultiply(16384, 16384, 0x4458, 0x4458);
  }

  lemma Power39()
    ensures Shifts(1, 39) == 0x3B5A
  {
    hide Shifts;
    ShiftsFour(0x0001, 35);
    ShiftsFour(0x0010, 31);
    ShiftsFour(0x0100, 27);
    ShiftsFour(0x1000, 23);
    ShiftsFour(0x1021, 19);
    ShiftsFour(0x1231, 15);
    ShiftsFour(0x3331, 11);
    ShiftsFour(0x0373, 7);
    ShiftsFour(0x3730, 3);
    UnfoldShifts(0x4363, 3);
    UnfoldShifts(0x86C6, 2);
    UnfoldShifts(0x1DAD, 1);
    UnfoldShifts(0x3B5A, 0);
  }

  lemma Power33Of1024()
    ensures Shifts(0x36C4, 33) == 0xF2AF
  {
    hide Shifts;
    ShiftsFour(0x36C4, 29);
    ShiftsFour(0x5C23, 25);
    ShiftsFour(0x9295, 21);
    ShiftsFour(0xB879, 17);
    ShiftsFour(0x36FB, 13);
    ShiftsFour(0x5FD3, 9);
    ShiftsFour(0xAD95, 5);
    ShiftsFour(0x781A, 1);
    UnfoldShifts(0xF147, 1);
    UnfoldShifts(0xF2AF, 0);
  }

  lemma Mul4608()
    ensures Mul(0xAA9E, 0x13FC) == 0x54A0
  {
    hide Horner;
    HornerFour(0xAA9E, 0x13FC, 12, 0x0000);
    HornerFour(0xA9E0, 0x13FC, 8, 0xB818);
    HornerFour(0x9E00, 0x13FC, 4, 0x88F3);
    HornerFour(0xE000, 0x13FC, 0, 0x8224);
    HornerNone(0, 0x13FC, 0x54A0);
  }

  lemma Mul4672()
    ensures Mul(0x54A0, 0xB861) == 0x0106
  {
    hide Horner;
    HornerFour(0x54A0, 0xB861, 12, 0x0000);
    HornerFour(0x4A00, 0xB861, 8, 0x79A7);
    HornerFour(0xA000, 0xB861, 4, 0x2B51);
    HornerFour(0x0000, 0xB861, 0, 0x661C);
    HornerNone(0, 0xB861, 0x0106);
  }

  lemma Power9Of4672()
    ensures Shifts(0x0106, 9) == 0x2C42
  {
    hide Shifts;
    ShiftsFour(0x0106, 5);
    ShiftsFour(0x1060, 1);
    UnfoldShifts(0x1621, 1);
    UnfoldShifts(0x2C42, 0);
  }

  predicate IsPeriod(n: nat) {
    Shifts(1, n) == 1
  }

  lemma WholePeriod()
    ensures IsPeriod(PERIOD)
  {
    hide Shifts, Shift;
    Squares();
    ShiftsAdd(1, PERIOD, 1);
    UnfoldShifts(Shifts(1, PERIOD), 1);
    UnfoldShifts(Shift(Shifts(1, PERIOD)), 0);
    ShiftSame(Shifts(1, PERIOD), 1);
    ShiftOfOne();
  }

  lemma ShiftOfOne()
    ensures Shift(1) == 2
  {
  }

  lemma ShiftSame(x: bv16, y: bv16)
    ensures Shift(x) == Shift(y) <==> x == y
  {
    hide Shift, Add;
    ShiftLinear(x, y);
    ShiftZero(Add(x, y));
    AddIsZero(x, y);
    AddIsZero(Shift(x), Shift(y));
  }

  lemma {:induction false} ShiftsSame(x: bv16, y: bv16, n: nat)
    ensures Shifts(x, n) == Shifts(y, n) <==> x == y
  {
    hide Shifts, Add;
    ShiftsLinear(x, y, n);
    ShiftsZero(Add(x, y), n);
    AddIsZero(x, y);
    AddIsZero(Shifts(x, n), Shifts(y, n));
  }

  /** None of the three largest proper divisors of the period is a period. */
  lemma NotPeriods()
    ensures !IsPeriod(217) && !IsPeriod(1057) && !IsPeriod(4681)
  {
    hide Shifts, Mul;
    Squares();
    ShiftsAdd(1, 217, 39);
    Power39();
    ShiftsAdd(1, 1024, 33);
    Power33Of1024();
    Mul4608();
    PowersMultiply(4096, 512, 0xAA9E, 0x13FC);
    Mul4672();
    PowersMultiply(4608, 64, 0x54A0, 0xB861);
    ShiftsAdd(1, 4672, 9);
    Power9Of4672();
  }

  // ----- the least period -----

  /** The least period from `from` on. */
  function LeastPeriod(from: nat): (n: nat)
    requires from <= PERIOD
    ensures from <= n <= PERIOD && IsPeriod(n)
    ensures forall k :: from <= k < n ==> !IsPeriod(k)
    decreases PERIOD - from
  {
    WholePeriod();
    if from == PERIOD || IsPeriod(from) then from else LeastPeriod(from + 1)
  }

  lemma PeriodDifference(a: nat, b: nat)
    requires IsPeriod(a) && IsPeriod(a + b)
    ensures IsPeriod(b)
  {
    hide Shifts;
    ShiftsAdd(1, a, b);
  }

  lemma {:induction false} PeriodMultiple(a: nat, k: nat)
    requires IsPeriod(a)
    ensures IsPeriod(k * a)
    decreases k
  {
    hide Shifts;
    if k == 0 {
      UnfoldShifts(1, 0);
    } else {
      PeriodMultiple(a, k - 1);
      ShiftsAdd(1, (k - 1) * a, a);
      assert (k - 1) * a + a == k * a;
    }
  }

  /** Every period is a multiple of the least one. */
  lemma LeastDivides(n: nat)
    requires IsPeriod(n)
    ensures n % LeastPeriod(1) == 0
  {
    hide IsPeriod, LeastPeriod;
    var m := LeastPeriod(1);
    Split(n, m);
    RemainderIsZero(n, m, n / m, n % m);
  }

  lemma RemainderIsZero(n: nat, m: nat, q: nat, r: nat)
    requires IsPeriod(n) && m == LeastPeriod(1) && n == q * m + r && r < m
    ensures r == 0
  {
    hide IsPeriod, LeastPeriod;
    PeriodMultiple(m, q);
    PeriodDifference(q * m, r);
  }

  // ----- the divisors of 32767 = 7 * 31 * 151 -----

  lemma Split(n: nat, m: nat)
    requires m > 0
    ensures n == (n / m) * m + n % m && n % m < m
  {
  }

  lemma Monotone(a: nat, b: nat, p: nat)
    requires a <= b
    ensures a * p <= b * p
  {
  }

  lemma QuotientUnique(n: nat, q: nat, r: nat, p: nat)
    requires n == q * p + r && r < p
    ensures n % p == r
  {
    var q' := n / p;
    Split(n, p);
    if q' < q {
      Monotone(q' + 1, q, p);
      assert false;
    } else if q < q' {
      Monotone(q + 1, q', p);
      assert false;
    }
  }

  lemma Reduced(a: nat, b: nat, p: nat)
    requires p > 0
    ensures ((a % p) * b) % p == (a * b) % p
  {
    var r, x := a % p, (a % p) * b;
    Split(a, p);
    Split(x, p);
    var q := (a / p) * b + x / p;
    assert a * b == ((a / p) * p + r) * b == ((a / p) * b) * p + x;
    assert ((a / p) * b) * p + x == q * p + x % p;
    QuotientUnique(a * b, q, x % p, p);
  }

  /** A factor with an inverse modulo p can be cancelled. */
  lemma CancelFactor(r: nat, inverse: nat, p: nat, b: nat)
    requires p > 1 && (r * b) % p == 0 && (r * inverse) % p == 1
    ensures b % p == 0
  {
    Reduced(r * inverse, b, p);
    Reduced(r * b, inverse, p);
    Swapped(r, inverse, b);
  }

  lemma Swapped(x: nat, y: nat, z: nat)
    ensures (x * y) * z == (x * z) * y
  {
  }

  lemma CancelRemainder(a: nat, b: nat, p: nat, inverse: nat)
    requires p > 1 && (a * b) % p == 0 && ((a % p) * inverse) % p == 1
    ensures b % p == 0
  {
    Reduced(a, b, p);
    CancelFactor(a % p, inverse, p, b);
  }

  /** Inverses modulo 7 and modulo 31. */
  const INVERSES_7: seq<nat> := [0, 1, 4, 5, 2, 3, 6]
  const INVERSES_31: seq<nat> :=
    [0, 1, 16, 21, 8, 25, 26, 9, 4, 7, 28, 17, 13, 12, 20, 29,
     2, 11, 19, 18, 14, 3, 24, 27, 22, 5, 6, 23, 10, 15, 30]

  lemma Inverse7(r: nat)
    requires 0 < r < 7
    ensures (r * INVERSES_7[r]) % 7 == 1
  {
  }

  lemma Inverse31(r: nat)
    requires 0 < r < 31
    ensures (r * INVERSES_31[r]) % 31 == 1
  {
    if
    case r == 1 => case r == 2 => case r == 3 => case r == 4 => case r == 5 =>
    case r == 6 => case r == 7 => case r == 8 => case r == 9 => case r == 10 =>
    case r == 11 => case r == 12 => case r == 13 => case r == 14 => case r == 15 =>
    case r == 16 => case r == 17 => case r == 18 => case r == 19 => case r == 20 =>
    case r == 21 => case r == 22 => case r == 23 => case r == 24 => case r == 25 =>
    case r == 26 => case r == 27 => case r == 28 => case r == 29 => case r == 30 =>
  }

  lemma FactorOf7(a: nat, b: nat)
    requires (a * b) % 7 == 0
    ensures a % 7 == 0 || b % 7 == 0
  {
    if a % 7 != 0 {
      Inverse7(a % 7);
      CancelRemainder(a, b, 7, INVERSES_7[a % 7]);
    }
  }

  lemma FactorOf31(a: nat, b: nat)
    requires (a * b) % 31 == 0
    ensures a % 31 == 0 || b % 31 == 0
  {
    if a % 31 != 0 {
      Inverse31(a % 31);
      CancelRemainder(a, b, 31, INVERSES_31[a % 31]);
    }
  }

  lemma FactorsOf151(a: nat, b: nat)
    requires a * b == 151
    ensures a == 1 || b == 1
  {
    if a <= b {
      SmallFactorOf151(a, b);
    } else {
      SmallFactorOf151(b, a);
    }
  }

  lemma SmallFactorOf151(a: nat, b: nat)
    requires a * b == 151 && a <= b
    ensures a == 1
  {
    if a >= 13 {
      Monotone(13, a, b);
      assert false;
    }
    if
    case a == 0 => case a == 1 => case a == 2 => case a == 3 => case a == 4 => case a == 5 => case a == 6 =>
    case a == 7 => case a == 8 => case a == 9 => case a == 10 => case a == 11 => case a == 12 =>
  }

  lemma Divide(a: nat, p: nat)
    requires p > 0 && a % p == 0
    ensures a == p * (a / p)
  {
  }

  /** A proper divisor of the period divides one of the three largest. */
  lemma ProperDivisors(m: nat, h: nat)
    requires m * h == PERIOD && h > 1
    ensures exists k: nat :: k * m == 217 || k * m == 1057 || k * m == 4681
  {
    FactorOf7(m, h);
    if h % 7 == 0 {
      Divide(h, 7);
      assert m * (7 * (h / 7)) == 7 * ((h / 7) * m);
      assert (h / 7) * m == 4681;
    } else {
      var m1 := m / 7;
      Divide(m, 7);
      assert (7 * m1) * h == 7 * (m1 * h);
      assert m1 * h == 4681;
      FactorOf31(m1, h);
      if h % 31 == 0 {
        var h1 := h / 31;
        Divide(h, 31);
        assert m * (31 * h1) == 31 * (h1 * m);
        assert h1 * m == 1057;
      } else {
        var m2 := m1 / 31;
        Divide(m1, 31);
        assert (31 * m2) * h == 31 * (m2 * h);
        FactorsOf151(m2, h);
        assert 1 * m == 217;
      }
    }
  }

  lemma LeastIsWhole()
    ensures LeastPeriod(1) == PERIOD
  {
    hide IsPeriod, LeastPeriod;
    var m := LeastPeriod(1);
    WholePeriod();
    LeastDivides(PERIOD);
    Divide(PERIOD, m);
    var h := PERIOD / m;
    if h > 1 {
      ProperDivisors(m, h);
      var k: nat :| k * m == 217 || k * m == 1057 || k * m == 4681;
      PeriodMultiple(m, k);
      NotPeriods();
      assert false;
    }
    assert h == 1;
  }

  /** The powers of x return to one exactly at the multiples of 32767. */
  lemma PeriodExactly(n: nat)
    ensures Shifts(1, n) == 1 <==> n % PERIOD == 0
  {
    hide Shifts, LeastPeriod;
    LeastIsWhole();
    if IsPeriod(n) {
      LeastDivides(n);
    }
    if n % PERIOD == 0 {
      WholePeriod();
      Divide(n, PERIOD);
      PeriodMultiple(PERIOD, n / PERIOD);
      assert (n / PERIOD) * PERIOD == n;
    }
  }

  // ----- two flipped bits -----

  /** Exactly the bits at i and j are set. */
  ghost predicate TwoBits(error: seq<bool>, i: nat, j: nat) {
    && i < j < |error|
    && forall k :: 0 <= k < |error| ==> error[k] == (k == i || k == j)
  }

  lemma {:induction false} FeedNothing(crc: bv16, bits: seq<bool>)
    requires AllFalse(bits)
    ensures FeedBits(crc, bits) == Shifts(crc, |bits|)
    decreases |bits|
  {
    hide Shift, Feed;
    if bits != [] {
      FeedFalse(crc);
      FeedNothing(Feed(crc, false), bits[1..]);
    }
  }

  lemma TopPower()
    ensures Shifts(1, 15) == 0x8000
  {
    hide Shifts;
    ShiftsFour(0x0001, 11);
    ShiftsFour(0x0010, 7);
    ShiftsFour(0x0100, 3);
    UnfoldShifts(0x1000, 3);
    UnfoldShifts(0x2000, 2);
    UnfoldShifts(0x4000, 1);
    UnfoldShifts(0x8000, 0);
  }

  lemma FeedOne(crc: bv16)
    ensures FeedBits(crc, [true]) == Shift(Add(crc, 0x8000))
  {
    hide Shift, Add;
    assert [true][1..] == [];
  }

  /** Two flipped bits leave the zero register exactly when their distance is a multiple of 32767. */
  lemma TwoBitsUndetectedIff(error: seq<bool>, i: nat, j: nat)
    requires TwoBits(error, i, j)
    ensures FeedBits(0, error) == 0 <==> (j - i) % PERIOD == 0
  {
    hide Feed, FeedBits, Shift, Shifts, Add, AllFalse;
    var before, between, after := error[..i], error[i + 1..j], error[j + 1..];
    TwoBitsApart(error, i, j);
    assert error == before + ([true] + (between + ([true] + after)));
    var r1 := Shift(0x8000);
    var r2 := Shifts(r1, j - i - 1);
    FeedConcat(0, before, [true] + (between + ([true] + after)));
    FeedFalses(0, before);
    FeedConcat(0, [true], between + ([true] + after));
    FeedOne(0);
    AddZero(0x8000);
    FeedConcat(r1, between, [true] + after);
    FeedNothing(r1, between);
    FeedConcat(r2, [true], after);
    FeedOne(r2);
    FeedFalses(Shift(Add(r2, 0x8000)), after);
    ShiftZero(Add(r2, 0x8000));
    AddIsZero(r2, 0x8000);
    UnfoldShifts(0x8000, j - i);
    TopPower();
    ShiftsAdd(1, 15, j - i);
    ShiftsAdd(1, j - i, 15);
    ShiftsSame(Shifts(1, j - i), 1, 15);
    PeriodExactly(j - i);
  }

  lemma TwoBitsApart(error: seq<bool>, i: nat, j: nat)
    requires TwoBits(error, i, j)
    ensures AllFalse(error[..i]) && AllFalse(error[i + 1..j]) && AllFalse(error[j + 1..])
    ensures error[i] && error[j]
  {
  }

  // ----- counting flipped bits -----

  lemma {:induction false} NoPosition(bits: seq<bool>)
    requires CountTrue(bits) == 0
    ensures AllFalse(bits)
    decreases |bits|
  {
    if bits != [] {
      NoPosition(bits[1..]);
      assert forall k :: 1 <= k < |bits| ==> bits[k] == bits[1..][k - 1];
    }
  }

  lemma {:induction false} OnePosition(bits: seq<bool>) returns (j: nat)
    requires CountTrue(bits) == 1
    ensures j < |bits| && forall k :: 0 <= k < |bits| ==> bits[k] == (k == j)
    decreases |bits|
  {
    assert forall k :: 1 <= k < |bits| ==> bits[k] == bits[1..][k - 1];
    if bits[0] {
      NoPosition(bits[1..]);
      j := 0;
    } else {
      j := OnePosition(bits[1..]);
      j := j + 1;
    }
  }

  lemma {:induction false} TwoPositions(bits: seq<bool>) returns (i: nat, j: nat)
    requires CountTrue(bits) == 2
    ensures TwoBits(bits, i, j)
    decreases |bits|
  {
    assert forall k :: 1 <= k < |bits| ==> bits[k] == bits[1..][k - 1];
    if bits[0] {
      j := OnePosition(bits[1..]);
      i, j := 0, j + 1;
    } else {
      i, j := TwoPositions(bits[1..]);
      i, j := i + 1, j + 1;
    }
  }

  /** Among fewer than 32768 bits, no one, two or three flipped ones leave the zero register. */
  lemma FewErrorsDetected(error: seq<bool>)
    requires 1 <= CountTrue(error) <= 3 && |error| <= PERIOD
    ensures FeedBits(0, error) != 0
  {
    hide FeedBits, CountTrue;
    if CountTrue(error) == 2 {
      var i, j := TwoPositions(error);
      TwoBitsUndetectedIff(error, i, j);
      SmallDistance(j - i);
    } else {
      OddErrorDetected(error);
    }
  }

  lemma SmallDistance(d: nat)
    requires 0 < d < PERIOD
    ensures d % PERIOD != 0
  {
  }
}
