/**
 CRC-32 as polynomial division over GF(2). A polynomial is the sequence of its coefficients, highest degree first.
 The shift register of `Lfsr` is proved to hold the remainder, and the remainder is proved to be unique.
*/
module Gf2 {
  import opened Bytes
  import opened Lfsr
  import opened Crc32

  type Poly = seq<bool>

  function Zeros(n: nat): (p: Poly)
    ensures |p| == n && forall i :: 0 <= i < n ==> !p[i]
  {
    seq(n, _ => false)
  }

  function Scale(b: bool, g: Poly): (p: Poly)
    ensures |p| == |g| && forall i :: 0 <= i < |g| ==> p[i] == (b && g[i])
  {
    if b then g else Zeros(|g|)
  }

  /** The product, by Horner's rule over the coefficients of `q`. */
  function Mul(q: Poly, g: Poly): (p: Poly)
    requires |g| > 0
    ensures |p| == |q| + |g| - 1
  {
    if q == [] then Zeros(|g| - 1)
    else
      var n := |q| - 1;
      XorBits(Mul(q[..n], g) + [false], Zeros(n) + Scale(q[n], g))
  }

  /** p = q * g + r with r of lower degree than g. */
  ghost predicate Divides(p: Poly, g: Poly, q: Poly, r: Poly)
    requires |g| > 0
  {
    && |r| == |g| - 1
    && |p| == |q| + |r|
    && p == XorBits(Mul(q, g), Zeros(|q|) + r)
  }

  ghost predicate IsRemainder(p: Poly, g: Poly, r: Poly)
    requires |g| > 0
  {
    exists q :: Divides(p, g, q, r)
  }

  /** x^32 + x^26 + x^23 + x^22 + x^16 + x^12 + x^11 + x^10 + x^8 + x^7 + x^5 + x^4 + x^2 + x + 1 */
  const GENERATOR: Poly := seq(33, i => 32 - i in {32, 26, 23, 22, 16, 12, 11, 10, 8, 7, 5, 4, 2, 1, 0})

  /** `initial` * x^|message| + `message` * x^|initial| */
  function Dividend(initial: Poly, message: Poly): (p: Poly)
    ensures |p| == |initial| + |message|
  {
    XorBits(initial + Zeros(|message|), message + Zeros(|initial|))
  }

  // ----- the register divides -----

  /** The polynomial's four bytes, lowest first, in transmission order. */
  function ByteOfPolynomial(k: nat): (p: Poly)
    requires k < 4
    ensures |p| == 8
  {
    if k == 0 then [false, false, false, false, false, true, false, false]
    else if k == 1 then [true, true, false, false, false, false, false, true]
    else if k == 2 then [false, false, false, true, true, true, false, true]
    else [true, false, true, true, false, true, true, true]
  }

  lemma FourBits(w: bv32)
    ensures BitsOf(w, 4) == [Low(w), Low(Half(w)), Low(Half(Half(w))), Low(Half(Half(Half(w))))]
    ensures Drop(w, 4) == Half(Half(Half(Half(w))))
  {
    hide Low, Half;
    assert BitsOf(w, 4) == [Low(w), Low(Half(w))] + BitsOf(Half(Half(w)), 2);
    assert Drop(w, 4) == Drop(Half(Half(w)), 2);
  }

  lemma EightBits(w: bv32)
    ensures var v := Half(Half(Half(Half(w))));
            BitsOf(w, 8) == [Low(w), Low(Half(w)), Low(Half(Half(w))), Low(Half(Half(Half(w)))),
                             Low(v), Low(Half(v)), Low(Half(Half(v))), Low(Half(Half(Half(v))))]
  {
    hide BitsOf, Drop, Low, Half;
    FourBits(w);
    FourBits(Half(Half(Half(Half(w)))));
    DropSplit(w, 4, 4);
  }

  lemma PolynomialByte(k: nat)
    requires k < 4
    ensures BitsOf([0xEDB88320, 0x00EDB883, 0x0000EDB8, 0x000000ED][k], 8) == ByteOfPolynomial(k)
  {
    hide BitsOf;
    EightBits([0xEDB88320, 0x00EDB883, 0x0000EDB8, 0x000000ED][k]);
  }

  lemma PolynomialRests()
    ensures Rest(POLYNOMIAL) == 0x00EDB883 && Rest(0x00EDB883) == 0x0000EDB8 && Rest(0x0000EDB8) == 0x000000ED
  {
  }

  lemma GeneratorByte(k: nat, i: nat)
    requires k < 4 && i < 8
    ensures GENERATOR[8 * k + 1 + i] == ByteOfPolynomial(k)[i]
  {
  }

  /** The exponents of the generator and the hexadecimal constant of the source describe one polynomial. */
  lemma GeneratorIsPolynomial()
    ensures GENERATOR == [true] + BitsOf(POLYNOMIAL, 32)
  {
    hide BitsOf, Drop, Rest, ByteOfPolynomial;
    var p := POLYNOMIAL;
    PolynomialRests();
    PolynomialByte(0); PolynomialByte(1); PolynomialByte(2); PolynomialByte(3);
    Drop8(p); Drop8(0x00EDB883); Drop8(0x0000EDB8);
    DropSplit(p, 8, 8); DropSplit(p, 16, 8); DropSplit(p, 24, 8);
    var bits := BitsOf(p, 32);
    assert bits == ByteOfPolynomial(0) + ByteOfPolynomial(1) + ByteOfPolynomial(2) + ByteOfPolynomial(3);
    forall j | 0 <= j < 32 ensures GENERATOR[1 + j] == bits[j] {
      GeneratorByte(j / 8, j % 8);
    }
    assert GENERATOR[0];
  }

  lemma FirstBit(r: bv32, k: nat)
    ensures BitsOf(r, k + 1) == [Low(r)] + BitsOf(Half(r), k)
  {
    hide Low, Half;
  }

  lemma HalfBits(r: bv32)
    ensures BitsOf(Half(r), 32) == BitsOf(r, 32)[1..] + [false]
    ensures BitsOf(r, 32)[0] == Low(r)
  {
    hide Low, Half, BitsOf, Drop;
    FirstBit(r, 31);
    FirstBit(r, 32);
    DropSplit(r, 32, 1);
    Drop32(r);
    BitsOfZero(1);
    assert BitsOf(0, 1) == [false];
    var s := BitsOf(r, 32);
    assert BitsOf(Half(r), 32) == (s + [false])[1..];
  }

  /** One register step: multiply by x, add the input bit at x^32, subtract the generator if x^32 is present. */
  lemma StepAsPoly(r: bv32, bit: bool)
    ensures BitsOf(BitStep(r, bit), 32)
         == XorBits(BitsOf(r, 32)[1..] + [false], Scale(BitsOf(r, 32)[0] != bit, BitsOf(POLYNOMIAL, 32)))
  {
    hide Xor, Half, Low, BitsOf;
    HalfBits(r);
    BitsOfXor(Half(r), POLYNOMIAL, 32);
  }

  /** The quotient grows by one coefficient per message bit; the register is the remainder. */
  lemma {:induction false} Division(r: bv32, message: Poly) returns (q: Poly)
    ensures Divides(Dividend(BitsOf(r, 32), message), GENERATOR, q, BitsOf(RunBits(r, message), 32))
  {
    hide BitsOf, BitStep;
    if message == [] {
      q := [];
    } else {
      var n := |message| - 1;
      var m, bit := message[..n], message[n];
      var q' := Division(r, m);
      var w := RunBits(r, m);
      RunAppend(r, m, [bit]);
      assert message == m + [bit];
      assert RunBits(r, message) == BitStep(w, bit);
      StepAsPoly(w, bit);
      GeneratorIsPolynomial();
      q := q' + [BitsOf(w, 32)[0] != bit];
      NextCoefficient(BitsOf(r, 32), m, bit, q', BitsOf(w, 32), BitsOf(POLYNOMIAL, 32));
    }
  }

  lemma MulUnfold(q: Poly, t: bool, g: Poly)
    requires |g| > 0
    ensures Mul(q + [t], g) == XorBits(Mul(q, g) + [false], Zeros(|q|) + Scale(t, g))
  {
    assert (q + [t])[..|q|] == q;
  }

  lemma MulNext(q: Poly, t: bool, g: Poly, i: nat)
    requires |g| > 0 && i < |q| + |g|
    ensures Mul(q + [t], g)[i] == ((i < |q| + |g| - 1 && Mul(q, g)[i]) != (i >= |q| && t && g[i - |q|]))
  {
    hide Mul;
    MulUnfold(q, t, g);
  }

  lemma DividendNext(initial: Poly, m: Poly, bit: bool, i: nat)
    requires i < |m| + 1 + |initial|
    ensures Dividend(initial, m + [bit])[i] == ((i < |m| + |initial| && Dividend(initial, m)[i]) != (i == |m| && bit))
  {
  }

  lemma NextCoefficient(initial: Poly, m: Poly, bit: bool, q: Poly, s: Poly, low: Poly)
    requires |initial| == 32 && |s| == 32 && |low| == 32
    requires Divides(Dividend(initial, m), [true] + low, q, s)
    ensures Divides(Dividend(initial, m + [bit]), [true] + low, q + [s[0] != bit],
                    XorBits(s[1..] + [false], Scale(s[0] != bit, low)))
  {
    hide Mul, Dividend;
    var t := s[0] != bit;
    var g := [true] + low;
    var n := |q|;
    var r := XorBits(s[1..] + [false], Scale(t, low));
    var d, d' := Dividend(initial, m), Dividend(initial, m + [bit]);
    forall i | 0 <= i < n + 33
      ensures d'[i] == (Mul(q + [t], g)[i] != (Zeros(n + 1) + r)[i])
    {
      MulNext(q, t, g, i);
      DividendNext(initial, m, bit, i);
      if i < n + 32 { assert d[i] == (Mul(q, g)[i] != (Zeros(n) + s)[i]); }
    }
  }

  // ----- the remainder is unique -----

  lemma {:induction false} MulXor(a: Poly, b: Poly, g: Poly)
    requires |g| > 0 && |a| == |b|
    ensures Mul(XorBits(a, b), g) == XorBits(Mul(a, g), Mul(b, g))
    decreases |a|
  {
    if a != [] {
      var n := |a| - 1;
      assert XorBits(a, b)[..n] == XorBits(a[..n], b[..n]);
      MulXor(a[..n], b[..n], g);
    }
  }

  lemma {:induction false} MulZero(q: Poly, g: Poly)
    requires |g| > 0 && forall i :: 0 <= i < |q| ==> !q[i]
    ensures forall i :: 0 <= i < |Mul(q, g)| ==> !Mul(q, g)[i]
    decreases |q|
  {
    if q != [] { MulZero(q[..|q| - 1], g); }
  }

  /** A product by a monic polynomial starts with the leading coefficient of the other factor. */
  lemma {:induction false} MulLead(q: Poly, g: Poly, j: nat)
    requires |g| > 0 && g[0]
    requires j < |q| && q[j] && forall i :: 0 <= i < j ==> !q[i]
    ensures Mul(q, g)[j]
    decreases |q|
  {
    var n := |q| - 1;
    if j < n { MulLead(q[..n], g, j); } else { MulZero(q[..n], g); }
  }

  lemma FirstSet(q: Poly, k: nat) returns (j: nat)
    requires k < |q| && q[k]
    ensures j <= k && q[j] && forall i :: 0 <= i < j ==> !q[i]
  {
    j := 0;
    while !q[j]
      invariant j <= k && forall i :: 0 <= i < j ==> !q[i]
      decreases k - j
    {
      j := j + 1;
    }
  }

  lemma DividesAt(p: Poly, g: Poly, q: Poly, r: Poly, i: nat)
    requires |g| > 0 && Divides(p, g, q, r) && i < |p|
    ensures p[i] == (Mul(q, g)[i] != (i >= |q| && r[i - |q|]))
  {
    hide Mul;
  }

  /** Products by a monic polynomial that agree in their leading coefficients have one quotient. */
  lemma QuotientUnique(g: Poly, q1: Poly, q2: Poly)
    requires |g| > 0 && g[0] && |q1| == |q2|
    requires forall i :: 0 <= i < |q1| ==> Mul(q1, g)[i] == Mul(q2, g)[i]
    ensures q1 == q2
  {
    hide Mul;
    var q, n := XorBits(q1, q2), |q1|;
    MulXor(q1, q2, g);
    if k :| 0 <= k < n && q1[k] != q2[k] {
      var j := FirstSet(q, k);
      MulLead(q, g, j);
    }
  }

  lemma RemainderUnique(p: Poly, g: Poly, q1: Poly, r1: Poly, q2: Poly, r2: Poly)
    requires |g| > 0 && g[0]
    requires Divides(p, g, q1, r1) && Divides(p, g, q2, r2)
    ensures q1 == q2 && r1 == r2
  {
    hide Mul;
    var n := |q1|;
    forall i | 0 <= i < n ensures Mul(q1, g)[i] == Mul(q2, g)[i] {
      DividesAt(p, g, q1, r1, i);
      DividesAt(p, g, q2, r2, i);
    }
    QuotientUnique(g, q1, q2);
    forall i | 0 <= i < |r1| ensures r1[i] == r2[i] {
      DividesAt(p, g, q1, r1, n + i);
      DividesAt(p, g, q2, r2, n + i);
    }
  }

  // ----- main results -----

  /**
   CRC-32 is the remainder modulo the generator: the complemented checksum, and nothing else, is the remainder of
   the message times x^32 with the complemented seed added to its leading 32 coefficients.
  */
  lemma CrcIsRemainder(crc: bv32, message: seq<Byte>, w: bv32)
    ensures IsRemainder(Dividend(BitsOf(Not(crc), 32), Bits(message)), GENERATOR, BitsOf(Not(w), 32))
       <==> w == Crc(crc, message)
  {
    hide BitsOf, RunBits, Bits, Not, Mul;
    var r := RunBits(Not(crc), Bits(message));
    var p := Dividend(BitsOf(Not(crc), 32), Bits(message));
    var q := Division(Not(crc), Bits(message));
    NotNot(r);
    NotNot(w);
    if IsRemainder(p, GENERATOR, BitsOf(Not(w), 32)) {
      var q' :| Divides(p, GENERATOR, q', BitsOf(Not(w), 32));
      RemainderUnique(p, GENERATOR, q, BitsOf(r, 32), q', BitsOf(Not(w), 32));
      WordOfBits(r, Not(w));
    }
  }

  lemma WordOfBits(a: bv32, b: bv32)
    requires BitsOf(a, 32) == BitsOf(b, 32)
    ensures a == b
  {
    Drop32(a);
    Drop32(b);
    BitsOfInjective(a, b, 32);
  }

  /** Two messages of one length collide exactly when the generator divides x^32 times their difference. */
  lemma CollisionIffDivisible(crc: bv32, a: seq<Byte>, b: seq<Byte>)
    requires |a| == |b|
    ensures Crc(crc, a) == Crc(crc, b)
       <==> IsRemainder(XorBits(Bits(a), Bits(b)) + Zeros(32), GENERATOR, Zeros(32))
  {
    hide BitsOf, RunBits, Bits, Mul;
    var e := XorBits(Bits(a), Bits(b));
    DetectedByPattern(crc, a, b);
    BitsOfZero(32);
    assert BitsOf(0, 32) == Zeros(32);
    assert Dividend(BitsOf(0, 32), e) == e + Zeros(32);
    var q := Division(0, e);
    if q' :| Divides(e + Zeros(32), GENERATOR, q', Zeros(32)) {
      RemainderUnique(e + Zeros(32), GENERATOR, q, BitsOf(RunBits(0, e), 32), q', Zeros(32));
      WordOfBits(RunBits(0, e), 0);
    }
  }
}
