/**
 Two-bit errors. The register without input multiplies by x modulo the generator; x has order 2^32 - 1 there, so
 two flipped bits cancel exactly when their distance is a multiple of 2^32 - 1.
*/
module TwoBitErrors {
  import opened Bytes
  import opened Ring
  import opened Lfsr
  import opened CrcTable
  import opened Crc32
  import opened Primes
  import G = Gf2

  /** The residue class of 1; the highest register bit is the coefficient of x^0. */
  const ONE: bv32 := 0x80000000

  const PERIOD: nat := 0xFFFF_FFFF

  /** x^k modulo the generator. */
  function Power(k: nat): bv32 {
    Shift(ONE, k)
  }

  // ----- multiplication modulo the generator -----

  /** One register step without input; without a branch, so that products of constants are quick to compute. */
  function TimesX(r: bv32): bv32 {
    (r >> 1) ^ (0xEDB88320 & (0 - (r & 1)))
  }

  function MulStep(u: bv32, v: bv32, acc: bv32): bv32 {
    TimesX(acc) ^ (v & (0 - (u & 1)))
  }

  /** Horner's rule over the lowest `k` bits of `u`, which are its coefficients of highest degree. */
  function MulAcc(u: bv32, v: bv32, acc: bv32, k: nat): bv32
    decreases k
  {
    if k == 0 then acc else MulAcc(Half(u), v, MulStep(u, v, acc), k - 1)
  }

  /** Four steps of `MulAcc`, written out so that products of constants can be computed. */
  function Mul4(u: bv32, v: bv32, acc: bv32): bv32 {
    MulStep(u >> 3, v, MulStep(u >> 2, v, MulStep(u >> 1, v, MulStep(u, v, acc))))
  }

  function Mul8(u: bv32, v: bv32, acc: bv32): bv32 {
    Mul4(u >> 4, v, Mul4(u, v, acc))
  }

  function Mul16(u: bv32, v: bv32, acc: bv32): bv32 {
    Mul8(Rest(u), v, Mul8(u, v, acc))
  }

  function Mul(u: bv32, v: bv32): bv32 {
    Mul16(Rest(Rest(u)), v, Mul16(u, v, 0))
  }

  /** Masking with the negated low bit is a choice. */
  lemma Chosen(u: bv32, a: bv32, p: bv32)
    requires u & 1 == 1
    ensures a ^ (p & (0 - (u & 1))) == a ^ p
  {
  }

  lemma NotChosen(u: bv32, a: bv32, p: bv32)
    requires u & 1 != 1
    ensures a ^ (p & (0 - (u & 1))) == a
  {
  }

  lemma TimesXIs(r: bv32)
    ensures TimesX(r) == if r & 1 == 1 then (r >> 1) ^ 0xEDB88320 else r >> 1
  {
    if r & 1 == 1 { Chosen(r, r >> 1, 0xEDB88320); } else { NotChosen(r, r >> 1, 0xEDB88320); }
  }

  lemma TimesXIsStep(r: bv32)
    ensures TimesX(r) == BitStep(r, false)
  {
    hide TimesX;
    TimesXIs(r);
  }

  lemma MulStepChooses(u: bv32, v: bv32, acc: bv32)
    ensures MulStep(u, v, acc) == if u & 1 == 1 then TimesX(acc) ^ v else TimesX(acc)
  {
    hide TimesX;
    if u & 1 == 1 { Chosen(u, TimesX(acc), v); } else { NotChosen(u, TimesX(acc), v); }
  }

  lemma MulStepIs(u: bv32, v: bv32, acc: bv32)
    ensures MulStep(u, v, acc) == if Low(u) then Xor(BitStep(acc, false), v) else BitStep(acc, false)
  {
    hide TimesX, BitStep, MulStep;
    TimesXIsStep(acc);
    MulStepChooses(u, v, acc);
  }

  lemma {:induction false} MulAccSplit(u: bv32, v: bv32, acc: bv32, j: nat, k: nat)
    ensures MulAcc(Drop(u, j), v, MulAcc(u, v, acc, j), k) == MulAcc(u, v, acc, j + k)
    decreases j
  {
    hide MulStep, Half;
    if j > 0 { MulAccSplit(Half(u), v, MulStep(u, v, acc), j - 1, k); }
  }

  lemma Halves(u: bv32)
    ensures Half(u) == u >> 1 && Half(Half(u)) == u >> 2
    ensures Half(Half(Half(u))) == u >> 3 && Half(Half(Half(Half(u)))) == u >> 4
  {
  }

  lemma Mul4IsAcc(u: bv32, v: bv32, acc: bv32)
    ensures Mul4(u, v, acc) == MulAcc(u, v, acc, 4)
    ensures Drop(u, 4) == u >> 4
  {
    hide MulStep, Half;
    Halves(u);
    var u1, u2, u3 := Half(u), Half(Half(u)), Half(Half(Half(u)));
    var a2 := MulStep(u1, v, MulStep(u, v, acc));
    assert MulAcc(u, v, acc, 4) == MulAcc(u2, v, a2, 2);
    assert Drop(u, 4) == Drop(u2, 2);
  }

  lemma Mul8IsAcc(u: bv32, v: bv32, acc: bv32)
    ensures Mul8(u, v, acc) == MulAcc(u, v, acc, 8)
  {
    hide Mul4, MulAcc, Drop, Half;
    Mul4IsAcc(u, v, acc);
    Mul4IsAcc(u >> 4, v, Mul4(u, v, acc));
    MulAccSplit(u, v, acc, 4, 4);
  }

  lemma MulIsAcc(u: bv32, v: bv32)
    ensures Mul(u, v) == MulAcc(u, v, 0, 32)
  {
    hide Mul8, MulAcc, Drop, Rest;
    var u1, u2, u3 := Rest(u), Rest(Rest(u)), Rest(Rest(Rest(u)));
    var a1 := Mul8(u, v, 0);    Mul8IsAcc(u, v, 0);
    var a2 := Mul8(u1, v, a1);  Mul8IsAcc(u1, v, a1);
    var a3 := Mul8(u2, v, a2);  Mul8IsAcc(u2, v, a2);
    Mul8IsAcc(u3, v, a3);
    Drop8(u); Drop8(u1); Drop8(u2);
    DropSplit(u, 8, 8); DropSplit(u, 16, 8);
    MulAccSplit(u, v, 0, 8, 8); MulAccSplit(u, v, 0, 16, 8); MulAccSplit(u, v, 0, 24, 8);
  }

  lemma StepOfZero()
    ensures BitStep(0, false) == 0
  {
  }

  lemma MulStepShift(u: bv32, v: bv32, acc: bv32)
    ensures MulStep(u, BitStep(v, false), BitStep(acc, false)) == BitStep(MulStep(u, v, acc), false)
  {
    hide BitStep, Xor, Low, MulStep;
    MulStepIs(u, v, acc);
    MulStepIs(u, BitStep(v, false), BitStep(acc, false));
    StepXor(BitStep(acc, false), v, false, false);
  }

  lemma {:induction false} MulAccShift(u: bv32, v: bv32, acc: bv32, k: nat)
    ensures MulAcc(u, BitStep(v, false), BitStep(acc, false), k) == BitStep(MulAcc(u, v, acc, k), false)
    decreases k
  {
    hide BitStep, MulStep, Half;
    if k > 0 {
      MulStepShift(u, v, acc);
      MulAccShift(Half(u), v, MulStep(u, v, acc), k - 1);
    }
  }

  lemma {:induction false} MulShift(u: bv32, v: bv32, k: nat)
    ensures MulAcc(u, Shift(v, k), 0, 32) == Shift(MulAcc(u, v, 0, 32), k)
    decreases k
  {
    hide BitStep, MulAcc;
    if k > 0 {
      MulAccShift(u, v, 0, 32);
      StepOfZero();
      MulShift(u, BitStep(v, false), k - 1);
    }
  }

  lemma StepAsMulStep(u: bv32, acc: bv32)
    ensures MulStep(u, POLYNOMIAL, acc) == BitStep(acc, Low(u))
  {
    hide Xor, Low, MulStep;
    MulStepIs(u, POLYNOMIAL, acc);
    StepXor(acc, 0, false, Low(u));
    XorUnit(acc);
    XorUnit(BitStep(acc, false));
    InputAlone(Low(u));
  }

  lemma InputAlone(bit: bool)
    ensures BitStep(0, bit) == if bit then POLYNOMIAL else 0
  {
  }

  /** Running the register over the bits of `u` multiplies `u` by x^32. */
  lemma {:induction false} MulByPolynomial(u: bv32, acc: bv32, k: nat)
    ensures MulAcc(u, POLYNOMIAL, acc, k) == RunBits(acc, BitsOf(u, k))
    decreases k
  {
    hide BitStep, MulStep, Half, Low;
    if k > 0 {
      StepAsMulStep(u, acc);
      MulByPolynomial(Half(u), BitStep(acc, Low(u)), k - 1);
      RunFirst(acc, Low(u), BitsOf(Half(u), k - 1));
    }
  }

  lemma OneShifted()
    ensures Shift(ONE, 31) == 1 && Shift(ONE, 32) == POLYNOMIAL
    ensures Power(16) == 0x00008000 && Power(1) == 0x40000000
  {
    assert Shift8(0x80000000) == 0x00800000 && Shift8(0x00800000) == 0x00008000;
    assert Shift8(0x00008000) == 0x00000080 && Shift8(0x00000080) == POLYNOMIAL;
    assert BitStep(1, false) == POLYNOMIAL && BitStep(ONE, false) == 0x40000000;
    assert Shift(ONE, 1) == BitStep(ONE, false);
    hide Shift, Shift8, BitStep;
    Shift8IsShift(0x80000000); Shift8IsShift(0x00800000); Shift8IsShift(0x00008000); Shift8IsShift(0x00000080);
    ShiftSplit(ONE, 8, 8);
    ShiftSplit(ONE, 16, 8);
    ShiftSplit(ONE, 24, 8);
    ShiftSplit(ONE, 31, 1);
    LastStep(Shift(ONE, 31));
  }

  lemma LastStep(r: bv32)
    ensures Shift(r, 1) == POLYNOMIAL ==> r == 1
  {
    assert Shift(r, 1) == BitStep(r, false);
    assert BitStep(1, false) == POLYNOMIAL;
    if BitStep(r, false) == POLYNOMIAL { StepInjective(r, 1, false); }
  }

  /** ONE is the unit. */
  lemma MulOne(u: bv32)
    ensures MulAcc(u, ONE, 0, 32) == u
  {
    hide MulAcc, Shift, RunBits, BitsOf, Xor, Drop;
    var m := MulAcc(u, ONE, 0, 32);
    OneShifted();
    MulShift(u, ONE, 32);
    MulByPolynomial(u, 0, 32);
    Feed(0, u, 32);
    Drop32(u);
    XorUnit(RunBits(0, BitsOf(u, 32)));
    XorUnit(u);
    ShiftInjective(m, u, 32);
  }

  /** Multiplying powers of x adds their exponents. */
  lemma PowerAdd(j: nat, k: nat)
    ensures Power(j + k) == Mul(Power(j), Power(k))
  {
    hide Mul, MulAcc, Shift;
    MulIsAcc(Power(j), Power(k));
    MulShift(Power(j), ONE, k);
    MulOne(Power(j));
    ShiftSplit(ONE, j, k);
  }

  lemma Double(k: nat, c: bv32, d: bv32)
    requires Power(k) == c && Mul(c, c) == d
    ensures Power(2 * k) == d
  {
    hide Mul, Power;
    PowerAdd(k, k);
  }

  lemma DoublePlusOne(k: nat, c: bv32, d: bv32, e: bv32)
    requires Power(k) == c && Mul(c, c) == d && BitStep(d, false) == e
    ensures Power(2 * k + 1) == e
  {
    hide Mul, BitStep, Shift;
    Double(k, c, d);
    ShiftSplit(ONE, 2 * k, 1);
    OneShift(d);
  }

  lemma OneShift(r: bv32)
    ensures Shift(r, 1) == BitStep(r, false)
  {
    hide BitStep;
    assert Shift(BitStep(r, false), 0) == BitStep(r, false);
  }

  lemma Add(j: nat, k: nat, c: bv32, d: bv32, e: bv32)
    requires Power(j) == c && Power(k) == d && Mul(c, d) == e
    ensures Power(j + k) == e
  {
    hide Mul, Power;
    PowerAdd(j, k);
  }

  // ----- the multiplications of the certificate -----

  lemma Products0()
    ensures Mul(0xEDB88320, 0xEDB88320) == 0xB1E6B092
    ensures Mul(0xB1E6B092, 0xB1E6B092) == 0xA06A2517
    ensures Mul(0xA06A2517, 0xA06A2517) == 0xED627DAE
    ensures Mul(0xED627DAE, 0xED627DAE) == 0x88D14467
    ensures Mul(0x88D14467, 0x88D14467) == 0xD7BBFE6A
  {
  }

  lemma Products1()
    ensures Mul(0xD7BBFE6A, 0xD7BBFE6A) == 0xEC447F11
    ensures Mul(0xEC447F11, 0xEC447F11) == 0x8E7EA170
    ensures Mul(0x8E7EA170, 0x8E7EA170) == 0x6427800E
    ensures Mul(0x6427800E, 0x6427800E) == 0x4D47BAE0
    ensures Mul(0x4D47BAE0, 0x4D47BAE0) == 0x09FE548F
  {
  }

  lemma Products2()
    ensures Mul(0x09FE548F, 0x09FE548F) == 0x83852D0F
    ensures Mul(0x83852D0F, 0x83852D0F) == 0x30362F1A
    ensures Mul(0x30362F1A, 0x30362F1A) == 0x7B5A9CC3
    ensures Mul(0x7B5A9CC3, 0x7B5A9CC3) == 0x31FEC169
    ensures Mul(0x31FEC169, 0x31FEC169) == 0x9FEC022A
  {
  }

  lemma Products3()
    ensures Mul(0x9FEC022A, 0x9FEC022A) == 0x6C8DEDC4
    ensures Mul(0x6C8DEDC4, 0x6C8DEDC4) == 0x15D6874D
    ensures Mul(0x15D6874D, 0x15D6874D) == 0x5FDE7A4E
    ensures Mul(0x5FDE7A4E, 0x5FDE7A4E) == 0xBAD90E37
    ensures Mul(0xBAD90E37, 0xBAD90E37) == 0x2E4E5EEF
  {
  }

  lemma Products4()
    ensures Mul(0x2E4E5EEF, 0x2E4E5EEF) == 0x4EABA214
    ensures Mul(0x4EABA214, 0x4EABA214) == 0xA8A472C0
    ensures Mul(0xA8A472C0, 0xA8A472C0) == 0x429A969E
    ensures Mul(0x429A969E, 0x429A969E) == 0x148D302A
    ensures Mul(0x148D302A, 0x148D302A) == 0xC40BA6D0
  {
  }

  lemma Products5()
    ensures Mul(0xC40BA6D0, 0xC40BA6D0) == 0xC4E22C3C
    ensures Mul(0xC4E22C3C, 0xC4E22C3C) == 0x40000000
    ensures Mul(0x00000001, 0x00000001) == 0xAA09C88B
    ensures Mul(0xB8BC6765, 0xB8BC6765) == 0xEC3B9E9F
    ensures Mul(0x9BA54C6F, 0x9BA54C6F) == 0x036BFA3A
  {
  }

  lemma Products6()
    ensures Mul(0x01B5FD1D, 0x01B5FD1D) == 0x4ED61B5F
    ensures Mul(0xCAD38E8F, 0xCAD38E8F) == 0xE80DF52A
    ensures Mul(0x7406FA95, 0x7406FA95) == 0x07F3F0C6
    ensures Mul(0x03F9F863, 0x03F9F863) == 0x54698F03
    ensures Mul(0xC78C44A1, 0xC78C44A1) == 0x4BEF0679
  {
  }

  lemma Products7()
    ensures Mul(0xC84F001C, 0xC84F001C) == 0xEE6FEDC1
    ensures Mul(0x9A8F75C0, 0x9A8F75C0) == 0x27F9523C
    ensures Mul(0x13FCA91E, 0x13FCA91E) == 0x6387BEFF
    ensures Mul(0x40000000, 0x00008000) == 0x00004000
    ensures Mul(0x00004000, 0xED627DAE) == 0x0F1838C2
  {
  }

  lemma Products8()
    ensures Mul(0x0F1838C2, 0x8E7EA170) == 0x34B858BA
    ensures Mul(0x34B858BA, 0x83852D0F) == 0xEC4FBE80
    ensures Mul(0xEC4FBE80, 0x9FEC022A) == 0x8140BBF4
    ensures Mul(0x8140BBF4, 0xBAD90E37) == 0xEF5E8517
    ensures Mul(0xEF5E8517, 0x429A969E) == 0x3D436701
  {
  }

  lemma Products9()
    ensures Mul(0x3D436701, 0x3D436701) == 0xFA758C53
    ensures Mul(0xFA758C53, 0xFA758C53) == 0xBD436701
    ensures Mul(0x3D436701, 0xFA758C53) == 0x84011278
    ensures Mul(0x3D436701, 0xBD436701) == 0xC736EB52
    ensures Mul(0x40000000, 0xED627DAE) == 0x76B13ED7
  {
  }

  lemma Products10()
    ensures Mul(0x76B13ED7, 0x83852D0F) == 0xB898D242
    ensures Mul(0xB898D242, 0xBAD90E37) == 0x316B5BA1
    ensures Mul(0x316B5BA1, 0x316B5BA1) == 0x5B219B1C
    ensures Mul(0x5B219B1C, 0x5B219B1C) == 0xAEBF57A4
    ensures Mul(0xAEBF57A4, 0xAEBF57A4) == 0x7DB7E260
  {
  }

  lemma Products11()
    ensures Mul(0x316B5BA1, 0x5B219B1C) == 0x8B030439
    ensures Mul(0x8B030439, 0xAEBF57A4) == 0xA5550537
    ensures Mul(0xA5550537, 0x7DB7E260) == 0x8C283CA0
    ensures Mul(0x40000000, 0x83852D0F) == 0xAC7A15A7
    ensures Mul(0xAC7A15A7, 0xAC7A15A7) == 0xE1B508E6
  {
  }

  lemma Products12()
    ensures Mul(0xE1B508E6, 0xE1B508E6) == 0x216C9960
    ensures Mul(0x216C9960, 0x216C9960) == 0x345F273D
    ensures Mul(0xAC7A15A7, 0xE1B508E6) == 0xC8986D7D
    ensures Mul(0xC8986D7D, 0x216C9960) == 0x0772FA19
    ensures Mul(0x0772FA19, 0x345F273D) == 0x28545337
  {
  }

  lemma Products13()
    ensures Mul(0x28545337, 0x28545337) == 0xE51741C2
    ensures Mul(0xE51741C2, 0xE51741C2) == 0xBDB635EF
    ensures Mul(0xBDB635EF, 0xBDB635EF) == 0x3878D0AF
    ensures Mul(0x3878D0AF, 0x3878D0AF) == 0xFFA85B1D
    ensures Mul(0x28545337, 0xFFA85B1D) == 0x351C22C9
  {
  }

  // ----- the powers of x that decide its order -----

  lemma PowerIs(k: nat)
    ensures Power(k) == Shift(ONE, k)
  {
  }

  lemma SmallPowers()
    ensures Power(1) == 0x40000000 && Power(16) == 0x00008000 && Power(31) == 1 && Power(32) == POLYNOMIAL
  {
    hide Shift, Power;
    OneShifted();
    PowerIs(31);
    PowerIs(32);
  }

  lemma SquaresLow()
    ensures Power(0x100) == 0xED627DAE && Power(0x1000) == 0x8E7EA170
    ensures Power(0x10000) == 0x83852D0F && Power(0x80000) == 0x31FEC169
  {
    hide Mul, Power, Shift;
    SmallPowers();
    Products0(); Products1(); Products2(); Products3();
    Double(32, 0xEDB88320, 0xB1E6B092);
    Double(64, 0xB1E6B092, 0xA06A2517);
    Double(0x80, 0xA06A2517, 0xED627DAE);
    Double(0x100, 0xED627DAE, 0x88D14467);
    Double(0x200, 0x88D14467, 0xD7BBFE6A);
    Double(0x400, 0xD7BBFE6A, 0xEC447F11);
    Double(0x800, 0xEC447F11, 0x8E7EA170);
    Double(0x1000, 0x8E7EA170, 0x6427800E);
    Double(0x2000, 0x6427800E, 0x4D47BAE0);
    Double(0x4000, 0x4D47BAE0, 0x09FE548F);
    Double(0x8000, 0x09FE548F, 0x83852D0F);
    Double(0x10000, 0x83852D0F, 0x30362F1A);
    Double(0x20000, 0x30362F1A, 0x7B5A9CC3);
    Double(0x40000, 0x7B5A9CC3, 0x31FEC169);
  }

  lemma SquaresHigh()
    ensures Power(0x100000) == 0x9FEC022A && Power(0x1000000) == 0xBAD90E37
    ensures Power(0x10000000) == 0x429A969E && Power(0x1_0000_0000) == Power(1)
  {
    hide Mul, Power, Shift;
    SmallPowers();
    SquaresLow();
    Products2(); Products3(); Products4(); Products5();
    Double(0x80000, 0x31FEC169, 0x9FEC022A);
    Double(0x100000, 0x9FEC022A, 0x6C8DEDC4);
    Double(0x200000, 0x6C8DEDC4, 0x15D6874D);
    Double(0x400000, 0x15D6874D, 0x5FDE7A4E);
    Double(0x800000, 0x5FDE7A4E, 0xBAD90E37);
    Double(0x1000000, 0xBAD90E37, 0x2E4E5EEF);
    Double(0x2000000, 0x2E4E5EEF, 0x4EABA214);
    Double(0x4000000, 0x4EABA214, 0xA8A472C0);
    Double(0x8000000, 0xA8A472C0, 0x429A969E);
    Double(0x10000000, 0x429A969E, 0x148D302A);
    Double(0x20000000, 0x148D302A, 0xC40BA6D0);
    Double(0x40000000, 0xC40BA6D0, 0xC4E22C3C);
    Double(0x80000000, 0xC4E22C3C, 0x40000000);
  }

  lemma NotByLargestPrime()
    ensures Power(PERIOD / 65537) != ONE
  {
    hide Mul, Power, Shift;
    SmallPowers();
    Products4(); Products5(); Products6(); Products7();
    DoublePlusOne(31, 0x00000001, 0xAA09C88B, 0xB8BC6765);
    DoublePlusOne(63, 0xB8BC6765, 0xEC3B9E9F, 0x9BA54C6F);
    DoublePlusOne(0x7F, 0x9BA54C6F, 0x036BFA3A, 0x01B5FD1D);
    DoublePlusOne(0xFF, 0x01B5FD1D, 0x4ED61B5F, 0xCAD38E8F);
    DoublePlusOne(0x1FF, 0xCAD38E8F, 0xE80DF52A, 0x7406FA95);
    DoublePlusOne(0x3FF, 0x7406FA95, 0x07F3F0C6, 0x03F9F863);
    DoublePlusOne(0x7FF, 0x03F9F863, 0x54698F03, 0xC78C44A1);
    DoublePlusOne(0xFFF, 0xC78C44A1, 0x4BEF0679, 0xC84F001C);
    DoublePlusOne(0x1FFF, 0xC84F001C, 0xEE6FEDC1, 0x9A8F75C0);
    DoublePlusOne(0x3FFF, 0x9A8F75C0, 0x27F9523C, 0x13FCA91E);
    DoublePlusOne(0x7FFF, 0x13FCA91E, 0x6387BEFF, 0xDC7B5C5F);
    assert PERIOD / 65537 == 0xFFFF;
  }

  lemma NotByThreeOrFive()
    ensures Power(PERIOD / 3) != ONE && Power(PERIOD / 5) != ONE
  {
    hide Mul, Power, Shift;
    SmallPowers();
    SquaresLow();
    SquaresHigh();
    Products7(); Products8(); Products9(); Products10();
    Add(1, 16, 0x40000000, 0x00008000, 0x00004000);
    Add(17, 0x100, 0x00004000, 0xED627DAE, 0x0F1838C2);
    Add(0x111, 0x1000, 0x0F1838C2, 0x8E7EA170, 0x34B858BA);
    Add(0x1111, 0x10000, 0x34B858BA, 0x83852D0F, 0xEC4FBE80);
    Add(0x11111, 0x100000, 0xEC4FBE80, 0x9FEC022A, 0x8140BBF4);
    Add(0x111111, 0x1000000, 0x8140BBF4, 0xBAD90E37, 0xEF5E8517);
    Add(0x1111111, 0x10000000, 0xEF5E8517, 0x429A969E, 0x3D436701);
    Double(0x11111111, 0x3D436701, 0xFA758C53);
    Double(0x22222222, 0xFA758C53, 0xBD436701);
    Add(0x11111111, 0x22222222, 0x3D436701, 0xFA758C53, 0x84011278);
    Add(0x11111111, 0x44444444, 0x3D436701, 0xBD436701, 0xC736EB52);
    assert PERIOD / 3 == 0x55555555 && PERIOD / 5 == 0x33333333;
  }

  lemma NotBySeventeen()
    ensures Power(PERIOD / 17) != ONE
  {
    hide Mul, Power, Shift;
    SmallPowers();
    SquaresLow();
    SquaresHigh();
    Products9(); Products10(); Products11();
    Add(1, 0x100, 0x40000000, 0xED627DAE, 0x76B13ED7);
    Add(0x101, 0x10000, 0x76B13ED7, 0x83852D0F, 0xB898D242);
    Add(0x10101, 0x1000000, 0xB898D242, 0xBAD90E37, 0x316B5BA1);
    Double(0x1010101, 0x316B5BA1, 0x5B219B1C);
    Double(0x2020202, 0x5B219B1C, 0xAEBF57A4);
    Double(0x4040404, 0xAEBF57A4, 0x7DB7E260);
    Add(0x1010101, 0x2020202, 0x316B5BA1, 0x5B219B1C, 0x8B030439);
    Add(0x3030303, 0x4040404, 0x8B030439, 0xAEBF57A4, 0xA5550537);
    Add(0x7070707, 0x8080808, 0xA5550537, 0x7DB7E260, 0x8C283CA0);
    assert PERIOD / 17 == 0x0F0F0F0F;
  }

  lemma NotBy257()
    ensures Power(PERIOD / 257) != ONE
  {
    hide Mul, Power, Shift;
    SmallPowers();
    SquaresLow();
    Products11(); Products12(); Products13();
    Add(1, 0x10000, 0x40000000, 0x83852D0F, 0xAC7A15A7);
    Double(0x10001, 0xAC7A15A7, 0xE1B508E6);
    Double(0x20002, 0xE1B508E6, 0x216C9960);
    Double(0x40004, 0x216C9960, 0x345F273D);
    Add(0x10001, 0x20002, 0xAC7A15A7, 0xE1B508E6, 0xC8986D7D);
    Add(0x30003, 0x40004, 0xC8986D7D, 0x216C9960, 0x0772FA19);
    Add(0x70007, 0x80008, 0x0772FA19, 0x345F273D, 0x28545337);
    Double(0xF000F, 0x28545337, 0xE51741C2);
    Double(0x1E001E, 0xE51741C2, 0xBDB635EF);
    Double(0x3C003C, 0xBDB635EF, 0x3878D0AF);
    Double(0x780078, 0x3878D0AF, 0xFFA85B1D);
    Add(0xF000F, 0xF000F0, 0x28545337, 0xFFA85B1D, 0x351C22C9);
    assert PERIOD / 257 == 0x00FF00FF;
  }

  // ----- the order of x -----

  lemma PowerPeriod()
    ensures Power(PERIOD) == ONE
  {
    hide Shift;
    SquaresHigh();
    ShiftSplit(ONE, PERIOD, 1);
    ShiftSplit(ONE, 0, 1);
    PowerShift(PERIOD, 1);
    ShiftInjective(Power(PERIOD), ONE, 1);
  }

  lemma PowerShift(j: nat, k: nat)
    ensures Power(j + k) == Shift(Power(j), k)
  {
    hide Shift;
    ShiftSplit(ONE, j, k);
  }

  lemma {:induction false} PowerMultiple(g: nat, u: nat)
    requires Power(g) == ONE
    ensures Power(u * g) == ONE
    decreases u
  {
    hide Shift;
    if u == 0 {
      assert u * g == 0;
      PowerZero();
    } else {
      PowerMultiple(g, u - 1);
      assert (u - 1) * g + g == u * g;
      PowerShift((u - 1) * g, g);
    }
  }

  lemma PowerZero()
    ensures Power(0) == ONE
  {
  }

  /** Two exponents with power one have a common divisor with power one. */
  lemma {:induction false} CommonPeriod(a: nat, b: nat) returns (g: nat, u: nat, v: nat)
    requires a > 0 && Power(a) == ONE && Power(b) == ONE
    ensures g > 0 && a == u * g && b == v * g && Power(g) == ONE
    decreases b
  {
    hide Power;
    if b == 0 {
      g, u, v := a, 1, 0;
    } else {
      var q, r := a / b, a % b;
      DivMod(a, b);
      PowerMultiple(b, q);
      PowerRemainder(q * b, r);
      var u', v';
      g, u', v' := CommonPeriod(b, r);
      Scale(u', v', q, g);
      u, v := q * u' + v', u';
    }
  }

  lemma PowerRemainder(m: nat, r: nat)
    requires Power(m) == ONE && Power(m + r) == ONE
    ensures Power(r) == ONE
  {
    hide Shift;
    PowerShift(m, r);
  }

  /** A divisor of 2^32 - 1 other than 1 has one of the five primes in it. */
  lemma PrimeInDivisor(u: nat, g: nat) returns (p: nat, w: nat)
    requires u > 1 && u * g == PERIOD
    ensures p in {3, 5, 17, 257, 65537} && u == p * w
  {
    FermatPrimes();
    hide Prime;
    var found, g1, g2, g3, g4, g5;
    found, g1 := Euclid(3, u, g, 5 * 17 * 257 * 65537);
    if found { return 3, g1; }
    found, g2 := Euclid(5, u, g1, 17 * 257 * 65537);
    if found { return 5, g2; }
    found, g3 := Euclid(17, u, g2, 257 * 65537);
    if found { return 17, g3; }
    found, g4 := Euclid(257, u, g3, 65537);
    if found { return 257, g4; }
    found, g5 := Euclid(65537, u, g4, 1);
    if found { return 65537, g5; }
    NoUnit(u, g5);
  }

  lemma NoUnit(u: nat, w: nat)
    requires u > 1
    ensures u * w != 1
  {
  }

  lemma NotByAnyPrime(p: nat)
    requires p in {3, 5, 17, 257, 65537}
    ensures Power(PERIOD / p) != ONE
  {
    NotByThreeOrFive();
    NotBySeventeen();
    NotBy257();
    NotByLargestPrime();
  }

  lemma Quotient(p: nat, w: nat, g: nat)
    requires p > 0 && p * w * g == PERIOD
    ensures PERIOD / p == w * g
  {
    DivMod(PERIOD, p);
    var r := PERIOD % p;
    assert PERIOD == (w * g) * p + 0;
    ModUnique(PERIOD, p, w * g, 0);
    MulMinus(PERIOD / p, w * g, p);
    SameQuotient(PERIOD / p, w * g, p, 0);
  }

  /** x has order 2^32 - 1: the generator is primitive. */
  lemma OrderOfX(k: nat)
    ensures Power(k) == ONE <==> k % PERIOD == 0
  {
    hide Power;
    PowerPeriod();
    DivMod(k, PERIOD);
    if k % PERIOD == 0 {
      PowerMultiple(PERIOD, k / PERIOD);
    }
    if Power(k) == ONE {
      var g, u, v := CommonPeriod(PERIOD, k);
      if u > 1 {
        var p, w := PrimeInDivisor(u, g);
        assert p * w * g == PERIOD;
        Quotient(p, w, g);
        PowerMultiple(g, w);
        NotByAnyPrime(p);
        assert false;
      }
      WholePeriod(u, g, v, k);
    }
  }

  lemma WholePeriod(u: nat, g: nat, v: nat, k: nat)
    requires u <= 1 && PERIOD == u * g && k == v * g
    ensures k % PERIOD == 0
  {
    assert g == PERIOD;
    ModUnique(k, PERIOD, v, 0);
  }

  lemma BitsOfOne()
    ensures BitsOf(ONE, 32) == G.Zeros(31) + [true]
  {
    hide BitsOf, Drop, Rest;
    RestsOfOne();
    G.EightBits(0x80000000); G.EightBits(0x00800000); G.EightBits(0x00008000); G.EightBits(0x00000080);
    Drop8(0x80000000); Drop8(0x00800000); Drop8(0x00008000);
    DropSplit(ONE, 8, 8); DropSplit(ONE, 16, 8); DropSplit(ONE, 24, 8);
  }

  lemma RestsOfOne()
    ensures Rest(0x80000000) == 0x00800000 && Rest(0x00800000) == 0x00008000 && Rest(0x00008000) == 0x00000080
  {
  }

  /** `Power` deserves its name: its bits are the remainder of x^k in the polynomial division of `Gf2`. */
  lemma PowerIsRemainder(k: nat)
    ensures G.IsRemainder(G.Zeros(31) + [true] + G.Zeros(k), G.GENERATOR, BitsOf(Power(k), 32))
  {
    hide BitsOf, RunBits, G.Divides;
    var q := G.Division(ONE, G.Zeros(k));
    RunNothing(ONE, G.Zeros(k));
    BitsOfOne();
    assert G.Dividend(BitsOf(ONE, 32), G.Zeros(k)) == G.Zeros(31) + [true] + G.Zeros(k);
  }

  // ----- two flipped bits -----

  lemma {:induction false} RunNothing(r: bv32, bits: seq<bool>)
    requires forall i :: 0 <= i < |bits| ==> !bits[i]
    ensures RunBits(r, bits) == Shift(r, |bits|)
    decreases |bits|
  {
    hide BitStep;
    if bits != [] { RunNothing(BitStep(r, false), bits[1..]); }
  }

  lemma LastFlip(r: bv32)
    ensures BitStep(r, true) == 0 <==> r == 1
  {
    if BitStep(r, true) == 0 {
      assert BitStep(1, true) == 0;
      StepInjective(r, 1, true);
    }
  }

  lemma OnePower(k: nat)
    ensures Shift(1, k) == 1 <==> Power(k) == ONE
  {
    hide Shift, Power;
    SmallPowers();
    PowerShift(31, k);
    PowerShift(k, 31);
    PowerIs(31);
    ShiftInjective(Power(k), ONE, 31);
  }

  /** The register after two flipped bits and everything around them. */
  lemma TwoBitSyndrome(e: seq<bool>, i: nat, j: nat)
    requires i < j < |e| && e[i] && e[j]
    requires forall k :: 0 <= k < |e| && k != i && k != j ==> !e[k]
    ensures Syndrome(e) == 0 <==> (j - i) % PERIOD == 0
  {
    hide Shift, BitStep, Power, RunBits;
    var before, middle, after := e[..i], e[i + 1..j], e[j + 1..];
    assert e == before + ([true] + (middle + ([true] + after)));
    RunAppend(0, before, [true] + (middle + ([true] + after)));
    RunZeros(before);
    RunFirst(0, true, middle + ([true] + after));
    var r := BitStep(0, true);
    RunAppend(r, middle, [true] + after);
    RunNothing(r, middle);
    var s := Shift(r, |middle|);
    RunFirst(s, true, after);
    RunZeros(after);
    RunInjective(BitStep(s, true), 0, after);
    LastFlip(s);
    FirstFlip(|middle|);
    OnePower(|middle| + 1);
    OrderOfX(|middle| + 1);
  }

  lemma FirstFlip(k: nat)
    ensures Shift(BitStep(0, true), k) == Shift(1, k + 1)
  {
    assert BitStep(0, true) == BitStep(1, false);
  }

  /** Two flipped bits go unnoticed exactly when they are a multiple of 2^32 - 1 bits apart. */
  lemma CancelIff(crc: bv32, a: seq<Byte>, b: seq<Byte>, i: nat, j: nat)
    requires |a| == |b| && i < j < 8 * |a|
    requires forall k :: 0 <= k < 8 * |a| ==> (Bits(a)[k] != Bits(b)[k] <==> k == i || k == j)
    ensures Crc(crc, a) == Crc(crc, b) <==> (j - i) % PERIOD == 0
  {
    hide Bits, Syndrome, Crc;
    TwoBitSyndrome(XorBits(Bits(a), Bits(b)), i, j);
    DetectedByPattern(crc, a, b);
  }
}
