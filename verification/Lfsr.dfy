/**
 The specification of CRC-32: a reflected shift register that takes one message bit at a time, least significant
 bit of each byte first, with the register complemented before and after the message.

 The word operations have names so that proofs about long runs can hide what they do to single bits.
*/
module Lfsr {
  import opened Bytes

  /** The generator of CRC-32 without its leading term; the lowest bit is the coefficient of x^31. */
  const POLYNOMIAL: bv32 := 0xEDB88320

  function Xor(a: bv32, b: bv32): bv32 {
    a ^ b
  }

  /** Complement, written as the source does it. */
  function Not(a: bv32): bv32 {
    Xor(a, 0xFFFFFFFF)
  }

  function Half(a: bv32): bv32 {
    a >> 1
  }

  predicate Low(a: bv32) {
    a & 1 == 1
  }

  function BitStep(r: bv32, bit: bool): bv32 {
    if Low(r) != bit then Xor(Half(r), POLYNOMIAL) else Half(r)
  }

  function RunBits(r: bv32, bits: seq<bool>): bv32
    decreases |bits|
  {
    if bits == [] then r else RunBits(BitStep(r, bits[0]), bits[1..])
  }

  /** The lowest `k` bits of a word, least significant first. */
  function BitsOf(w: bv32, k: nat): (s: seq<bool>)
    ensures |s| == k
    decreases k
  {
    if k == 0 then [] else [Low(w)] + BitsOf(Half(w), k - 1)
  }

  function ByteBits(b: Byte): (s: seq<bool>)
    ensures |s| == 8
  {
    BitsOf(b as bv32, 8)
  }

  /** The bits of a message in transmission order. */
  function Bits(message: seq<Byte>): (s: seq<bool>)
    ensures |s| == 8 * |message|
  {
    if message == [] then [] else ByteBits(message[0]) + Bits(message[1..])
  }

  /** The CRC of `message` continued from `crc`. */
  function Crc(crc: bv32, message: seq<Byte>): bv32 {
    Not(RunBits(Not(crc), Bits(message)))
  }

  /** `k` register steps without input. */
  function Shift(r: bv32, k: nat): bv32
    decreases k
  {
    if k == 0 then r else Shift(BitStep(r, false), k - 1)
  }

  function Drop(w: bv32, k: nat): bv32
    decreases k
  {
    if k == 0 then w else Drop(Half(w), k - 1)
  }

  function XorBits(a: seq<bool>, b: seq<bool>): (c: seq<bool>)
    requires |a| == |b|
    ensures |c| == |a|
    ensures forall i :: 0 <= i < |c| ==> c[i] == (a[i] != b[i])
  {
    seq(|a|, i requires 0 <= i < |a| => a[i] != b[i])
  }

  function XorBytes(a: seq<Byte>, b: seq<Byte>): (c: seq<Byte>)
    requires |a| == |b|
    ensures |c| == |a|
    ensures forall i :: 0 <= i < |c| ==> c[i] == a[i] ^ b[i]
  {
    seq(|a|, i requires 0 <= i < |a| => a[i] ^ b[i])
  }

  // ----- words -----

  lemma XorAssociates(a: bv32, b: bv32, c: bv32)
    ensures Xor(Xor(a, b), c) == Xor(a, Xor(b, c))
  {
  }

  lemma XorCommutes(a: bv32, b: bv32)
    ensures Xor(a, b) == Xor(b, a)
  {
  }

  lemma XorUnit(a: bv32)
    ensures Xor(a, a) == 0 && Xor(0, a) == a && Xor(a, 0) == a
  {
  }

  lemma XorLaws(a: bv32, b: bv32, p: bv32)
    ensures Xor(a, Xor(b, p)) == Xor(Xor(a, b), p)
    ensures Xor(Xor(a, p), b) == Xor(Xor(a, b), p)
    ensures Xor(Xor(a, p), Xor(b, p)) == Xor(a, b)
  {
    hide Xor;
    XorAssociates(a, b, p);
    XorAssociates(a, p, b);
    XorCommutes(p, b);
    XorAssociates(Xor(a, p), b, p);
    XorAssociates(Xor(a, b), p, p);
    XorUnit(p);
    XorUnit(Xor(a, b));
    XorAssociates(Xor(a, p), b, p);
  }

  lemma XorZero(a: bv32, b: bv32)
    ensures Xor(a, b) == 0 <==> a == b
  {
    hide Xor;
    XorAssociates(a, b, b);
    XorUnit(a);
    XorUnit(b);
  }

  lemma NotNot(a: bv32)
    ensures Not(Not(a)) == a
  {
    hide Xor;
    XorAssociates(a, 0xFFFFFFFF, 0xFFFFFFFF);
    XorUnit(0xFFFFFFFF);
    XorUnit(a);
  }

  lemma HalfXor(a: bv32, b: bv32)
    ensures Half(Xor(a, b)) == Xor(Half(a), Half(b))
  {
  }

  lemma LowXor(a: bv32, b: bv32)
    ensures Low(Xor(a, b)) == (Low(a) != Low(b))
  {
  }

  lemma LowAndHalf(a: bv32, b: bv32)
    requires Low(a) == Low(b) && Half(a) == Half(b)
    ensures a == b
  {
  }

  // ----- one step -----

  /** A step is linear over GF(2) in the register and the input bit together. */
  lemma StepXor(a: bv32, b: bv32, x: bool, y: bool)
    ensures BitStep(Xor(a, b), x != y) == Xor(BitStep(a, x), BitStep(b, y))
  {
    hide Xor, Half, Low;
    LowXor(a, b);
    HalfXor(a, b);
    XorLaws(Half(a), Half(b), POLYNOMIAL);
  }

  lemma StepInjective(a: bv32, b: bv32, bit: bool)
    requires BitStep(a, bit) == BitStep(b, bit)
    ensures a == b
  {
  }

  lemma StepQuiet(w: bv32)
    ensures BitStep(w, Low(w)) == Half(w)
  {
  }

  // ----- many steps -----

  lemma RunFirst(r: bv32, bit: bool, rest: seq<bool>)
    ensures RunBits(r, [bit] + rest) == RunBits(BitStep(r, bit), rest)
  {
    hide BitStep;
    assert ([bit] + rest)[1..] == rest;
  }

  lemma {:induction false} RunAppend(r: bv32, a: seq<bool>, b: seq<bool>)
    ensures RunBits(r, a + b) == RunBits(RunBits(r, a), b)
    decreases |a|
  {
    if a == [] {
      assert a + b == b;
    } else {
      assert (a + b)[1..] == a[1..] + b;
      RunAppend(BitStep(r, a[0]), a[1..], b);
    }
  }

  lemma {:induction false} RunXor(a: bv32, b: bv32, x: seq<bool>, y: seq<bool>)
    requires |x| == |y|
    ensures RunBits(Xor(a, b), XorBits(x, y)) == Xor(RunBits(a, x), RunBits(b, y))
    decreases |x|
  {
    hide BitStep, Xor;
    if x != [] {
      StepXor(a, b, x[0], y[0]);
      assert XorBits(x, y)[1..] == XorBits(x[1..], y[1..]);
      RunXor(BitStep(a, x[0]), BitStep(b, y[0]), x[1..], y[1..]);
    }
  }

  lemma {:induction false} RunInjective(a: bv32, b: bv32, bits: seq<bool>)
    ensures RunBits(a, bits) == RunBits(b, bits) <==> a == b
    decreases |bits|
  {
    hide BitStep;
    if bits != [] {
      RunInjective(BitStep(a, bits[0]), BitStep(b, bits[0]), bits[1..]);
      if BitStep(a, bits[0]) == BitStep(b, bits[0]) { StepInjective(a, b, bits[0]); }
    }
  }

  lemma {:induction false} RunZeros(bits: seq<bool>)
    requires forall i :: 0 <= i < |bits| ==> !bits[i]
    ensures RunBits(0, bits) == 0
    decreases |bits|
  {
    if bits != [] {
      assert BitStep(0, false) == 0;
      RunZeros(bits[1..]);
    }
  }

  lemma BitMovesDown(r: bv32, bit: bool, s: bv8)
    requires 0 < s < 32 && r >> s != 0
    ensures BitStep(r, bit) >> (s - 1) != 0
    ensures (s - 1) as int == s as int - 1
  {
  }

  /** A register bit at position `s` or above keeps the register non-zero for the next `s` steps. */
  lemma {:induction false} BitSurvives(r: bv32, bits: seq<bool>, s: bv8)
    requires s < 32 && r >> s != 0
    requires |bits| <= s as int
    ensures RunBits(r, bits) != 0
    decreases |bits|
  {
    hide BitStep;
    if bits != [] {
      BitMovesDown(r, bits[0], s);
      BitSurvives(BitStep(r, bits[0]), bits[1..], s - 1);
    }
  }

  /** From the zero register, up to 32 bits that are not all zero never lead back to zero. */
  lemma {:induction false} ShortBurstLeavesTrace(bits: seq<bool>, k: nat)
    requires |bits| <= 32 && k < |bits| && bits[k]
    ensures RunBits(0, bits) != 0
    decreases |bits|
  {
    if bits[0] {
      assert BitStep(0, true) == POLYNOMIAL && POLYNOMIAL >> 31 != 0;
      BitSurvives(BitStep(0, true), bits[1..], 31);
    } else {
      assert BitStep(0, false) == 0;
      ShortBurstLeavesTrace(bits[1..], k - 1);
    }
  }

  /** XORing a word into the register feeds its low bits one by one and leaves the rest of it for later. */
  lemma {:induction false} Feed(r: bv32, w: bv32, k: nat)
    ensures Shift(Xor(r, w), k) == Xor(RunBits(r, BitsOf(w, k)), Drop(w, k))
    decreases k
  {
    hide BitStep, Xor, Low, Half;
    if k > 0 {
      var r1 := BitStep(r, Low(w));
      StepXor(r, w, Low(w), Low(w));
      StepQuiet(w);
      Feed(r1, Half(w), k - 1);
      RunFirst(r, Low(w), BitsOf(Half(w), k - 1));
    }
  }

  // ----- bits of words and messages -----

  lemma XorConcat(a: seq<bool>, b: seq<bool>, c: seq<bool>, d: seq<bool>)
    requires |a| == |c| && |b| == |d|
    ensures XorBits(a + b, c + d) == XorBits(a, c) + XorBits(b, d)
  {
  }

  lemma XorSingle(x: bool, y: bool)
    ensures XorBits([x], [y]) == [x != y]
  {
  }

  lemma {:induction false} BitsOfXor(a: bv32, b: bv32, k: nat)
    ensures BitsOf(Xor(a, b), k) == XorBits(BitsOf(a, k), BitsOf(b, k))
    decreases k
  {
    hide Xor, Low, Half, XorBits;
    if k == 0 {
      assert XorBits([], []) == [];
    } else {
      LowXor(a, b);
      HalfXor(a, b);
      BitsOfXor(Half(a), Half(b), k - 1);
      XorConcat([Low(a)], BitsOf(Half(a), k - 1), [Low(b)], BitsOf(Half(b), k - 1));
      XorSingle(Low(a), Low(b));
    }
  }

  lemma {:induction false} BitsOfInjective(a: bv32, b: bv32, k: nat)
    requires BitsOf(a, k) == BitsOf(b, k) && Drop(a, k) == Drop(b, k)
    ensures a == b
    decreases k
  {
    hide Low, Half;
    if k > 0 {
      assert BitsOf(a, k)[0] == Low(a) && BitsOf(a, k)[1..] == BitsOf(Half(a), k - 1);
      assert BitsOf(b, k)[0] == Low(b) && BitsOf(b, k)[1..] == BitsOf(Half(b), k - 1);
      BitsOfInjective(Half(a), Half(b), k - 1);
      LowAndHalf(a, b);
    }
  }

  lemma {:induction false} DropSplit(w: bv32, j: nat, k: nat)
    ensures Drop(Drop(w, j), k) == Drop(w, j + k)
    ensures BitsOf(w, j) + BitsOf(Drop(w, j), k) == BitsOf(w, j + k)
    decreases j
  {
    hide Low, Half;
    if j == 0 {
      assert [] + BitsOf(w, k) == BitsOf(w, k);
    } else {
      DropSplit(Half(w), j - 1, k);
      ConcatAssociates([Low(w)], BitsOf(Half(w), j - 1), BitsOf(Drop(Half(w), j - 1), k));
    }
  }

  lemma ConcatAssociates(a: seq<bool>, b: seq<bool>, c: seq<bool>)
    ensures (a + b) + c == a + (b + c)
  {
  }

  /** What is left of a word after its low byte. */
  function Rest(w: bv32): bv32 {
    w >> 8
  }

  lemma Drop8(w: bv32)
    ensures Drop(w, 8) == Rest(w)
  {
    assert Drop(w, 4) == Half(Half(Half(Half(w))));
    DropSplit(w, 4, 4);
    assert Drop(Drop(w, 4), 4) == Half(Half(Half(Half(Drop(w, 4)))));
  }

  lemma Drop32(w: bv32)
    ensures Drop(w, 32) == 0
  {
    hide Drop, BitsOf, Rest;
    Drop8(w); Drop8(Rest(w)); Drop8(Rest(Rest(w))); Drop8(Rest(Rest(Rest(w))));
    DropSplit(w, 8, 8); DropSplit(w, 16, 8); DropSplit(w, 24, 8);
    NoFifthByte(w);
  }

  lemma NoFifthByte(w: bv32)
    ensures Rest(Rest(Rest(Rest(w)))) == 0
  {
  }

  lemma {:induction false} BitsOfZero(k: nat)
    ensures forall i :: 0 <= i < k ==> !BitsOf(0, k)[i]
    decreases k
  {
    if k > 0 {
      assert Half(0) == 0 && !Low(0);
      BitsOfZero(k - 1);
    }
  }

  lemma {:induction false} BitsAppend(a: seq<Byte>, b: seq<Byte>)
    ensures Bits(a + b) == Bits(a) + Bits(b)
  {
    hide ByteBits;
    if a == [] {
      assert a + b == b;
    } else {
      assert (a + b)[1..] == a[1..] + b;
      BitsAppend(a[1..], b);
    }
  }

  lemma XorBytesHead(a: seq<Byte>, b: seq<Byte>)
    requires |a| == |b| > 0
    ensures XorBytes(a, b)[0] == a[0] ^ b[0] && XorBytes(a, b)[1..] == XorBytes(a[1..], b[1..])
  {
  }

  lemma {:induction false} BitsXor(a: seq<Byte>, b: seq<Byte>)
    requires |a| == |b|
    ensures Bits(XorBytes(a, b)) == XorBits(Bits(a), Bits(b))
  {
    hide ByteBits, XorBits, XorBytes;
    if a == [] {
      assert XorBits([], []) == [];
    } else {
      XorBytesHead(a, b);
      BitsXor(a[1..], b[1..]);
      ByteBitsXor(a[0], b[0]);
      XorConcat(ByteBits(a[0]), Bits(a[1..]), ByteBits(b[0]), Bits(b[1..]));
    }
  }

  lemma ByteBitsXor(x: Byte, y: Byte)
    ensures ByteBits(x ^ y) == XorBits(ByteBits(x), ByteBits(y))
  {
    hide BitsOf, Xor;
    BitsOfXor(x as bv32, y as bv32, 8);
    WidenXor(x, y);
  }

  lemma WidenXor(x: Byte, y: Byte)
    ensures (x ^ y) as bv32 == Xor(x as bv32, y as bv32)
  {
  }
}
