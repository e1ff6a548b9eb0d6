/**
 crc32.h: the table-driven loop, and what every caller in the repository relies on: one-shot and continued
 evaluation agree, frames that end in their own checksum leave one residue, short bursts never go unnoticed.
*/
module Crc32 {
  import opened Bytes
  import opened Lfsr
  import opened CrcTable

  /** What `(int) size` makes of a 64-bit `size_t`. */
  function IntOfSize(size: nat): (r: int)
    ensures -0x8000_0000 <= r < 0x8000_0000
  {
    var low := size % 0x1_0000_0000;
    if low < 0x8000_0000 then low else low - 0x1_0000_0000
  }

  /** How many bytes the loop visits: none when the converted size is negative. */
  function Visited(size: nat): (n: nat)
  {
    if IntOfSize(size) < 0 then 0 else IntOfSize(size)
  }

  /** The loop covers the buffer it was given exactly for sizes below 2 GiB. */
  lemma VisitsWholeBuffer(size: nat)
    ensures Visited(size) == size <==> size < 0x8000_0000
    ensures Visited(size) <= size
  {
  }

  /** `(((int) crc) & 0xFF) ^ data[i]` */
  function Index(r: bv32, b: Byte): Byte {
    ((r & 0xFF) as bv8) ^ b
  }

  lemma IndexBits(r: bv32, b: Byte)
    ensures Index(r, b) as bv32 == Xor(r, b as bv32) & 0xFF
  {
  }

  lemma LowHigh(x: bv32)
    ensures Xor(x & 0xFF, x & 0xFFFFFF00) == x
    ensures Rest(x & 0xFFFFFF00) == Rest(x)
  {
  }

  lemma RestOfFed(r: bv32, b: Byte)
    ensures Rest(Xor(r, b as bv32)) == Rest(r) && Rest(b as bv32) == 0
  {
  }

  lemma HighBitsOf(x: bv32)
    ensures BitsOf(x & 0xFFFFFF00, 8) == BitsOf(0, 8)
    ensures Drop(0, 8) == 0
  {
  }

  /** One table lookup advances the register by one message byte. */
  lemma TableStep(r: bv32, b: Byte)
    ensures Xor(Lookup(Index(r, b)), Rest(r)) == RunBits(r, ByteBits(b))
  {
    hide Xor, BitsOf, Shift, RunBits, Drop, Rest, Index, Lookup;
    var w := b as bv32;
    var x := Xor(r, w);
    SplitShift(x);
    IndexBits(r, b);
    LookupIsShift(Index(r, b));
    RestOfFed(r, b);
    Feed(r, w, 8);
    Drop8(w);
    XorUnit(RunBits(r, BitsOf(w, 8)));
  }

  /** Eight empty steps act on the low byte and move the rest down. */
  lemma SplitShift(x: bv32)
    ensures Shift(x, 8) == Xor(Shift(x & 0xFF, 8), Rest(x))
  {
    hide Xor, BitsOf, Shift, RunBits, Drop, Rest;
    var lo, hi := x & 0xFF, x & 0xFFFFFF00;
    LowHigh(x);
    HighBitsOf(x);
    Feed(lo, hi, 8);
    Drop8(hi);
    Feed(lo, 0, 8);
    XorUnit(RunBits(lo, BitsOf(0, 8)));
    XorUnit(lo);
  }

  /** `crc32`: continues `crc` over `size` bytes of `data` from `offset`, one table lookup per byte. */
  method TableCrc(crc: bv32, data: array<Byte>, offset: nat, size: nat) returns (r: bv32)
    requires offset + Visited(size) <= data.Length
    ensures r == Crc(crc, data[offset..offset + Visited(size)])
  {
    hide Xor, ByteBits, RunBits, Bits, Lookup, Index, Rest;
    r := Xor(crc, 0xFFFFFFFF);
    var i := 0;
    NoBytes(r);
    while i < IntOfSize(size)
      invariant 0 <= i <= Visited(size)
      invariant r == RunBits(Not(crc), Bits(data[offset..offset + i]))
    {
      TableStep(r, data[offset + i]);
      NextByte(Not(crc), data[offset..offset + i], data[offset + i]);
      assert data[offset..offset + (i + 1)] == data[offset..offset + i] + [data[offset + i]];
      r := Xor(Lookup(Index(r, data[offset + i])), Rest(r));
      i := i + 1;
    }
    r := Xor(r, 0xFFFFFFFF);
  }

  lemma NoBytes(r: bv32)
    ensures RunBits(r, Bits([])) == r
  {
  }

  lemma NextByte(r: bv32, message: seq<Byte>, b: Byte)
    ensures RunBits(r, Bits(message + [b])) == RunBits(RunBits(r, Bits(message)), ByteBits(b))
  {
    hide ByteBits, RunBits;
    BitsAppend(message, [b]);
    assert Bits([b]) == ByteBits(b) + Bits([]);
    assert ByteBits(b) + [] == ByteBits(b);
    RunAppend(r, Bits(message), ByteBits(b));
  }

  // ----- what callers rely on -----

  /** Continuing the checksum of a prefix gives the checksum of the whole. */
  lemma Chunked(crc: bv32, a: seq<Byte>, b: seq<Byte>)
    ensures Crc(Crc(crc, a), b) == Crc(crc, a + b)
  {
    hide RunBits, Bits, Not;
    BitsAppend(a, b);
    RunAppend(Not(crc), Bits(a), Bits(b));
    NotNot(RunBits(Not(crc), Bits(a)));
  }

  /** CRC is affine: whether a change is detected depends on the change, not on the message. */
  lemma AffineXor(crc: bv32, a: seq<Byte>, b: seq<Byte>, c: seq<Byte>)
    requires |a| == |b| == |c|
    ensures Crc(crc, XorBytes(XorBytes(a, b), c)) == Xor(Xor(Crc(crc, a), Crc(crc, b)), Crc(crc, c))
  {
    hide RunBits, Bits, Xor;
    var r := Not(crc);
    var x, y, z := RunBits(r, Bits(a)), RunBits(r, Bits(b)), RunBits(r, Bits(c));
    BitsXor(a, b);
    BitsXor(XorBytes(a, b), c);
    RunXor(r, r, Bits(a), Bits(b));
    RunXor(Xor(r, r), r, XorBits(Bits(a), Bits(b)), Bits(c));
    XorUnit(r);
    XorLaws(x, y, 0xFFFFFFFF);
    XorLaws(Xor(x, y), z, 0xFFFFFFFF);
  }

  /** What a change `e` adds to the register, whatever the message and the seed. */
  function Syndrome(e: seq<bool>): bv32 {
    RunBits(0, e)
  }

  lemma DetectedByPattern(crc: bv32, a: seq<Byte>, b: seq<Byte>)
    requires |a| == |b|
    ensures Crc(crc, a) == Crc(crc, b) <==> Syndrome(XorBits(Bits(a), Bits(b))) == 0
  {
    hide RunBits, Bits, Xor, Not;
    var r := Not(crc);
    var x, y := RunBits(r, Bits(a)), RunBits(r, Bits(b));
    RunXor(r, r, Bits(a), Bits(b));
    XorUnit(r);
    XorZero(x, y);
    NotNot(x);
    NotNot(y);
  }

  /** A pattern with a set bit, all of whose set bits lie within 32 neighbouring positions, has a syndrome. */
  lemma BurstHasSyndrome(e: seq<bool>, from: nat, width: nat, k: nat)
    requires width <= 32 && from <= k < from + width <= |e| && e[k]
    requires forall i :: 0 <= i < |e| && !(from <= i < from + width) ==> !e[i]
    ensures Syndrome(e) != 0
  {
    hide RunBits;
    var before, burst, after := e[..from], e[from..from + width], e[from + width..];
    assert e == before + (burst + after);
    RunAppend(0, before, burst + after);
    RunZeros(before);
    RunAppend(0, burst, after);
    ShortBurstLeavesTrace(burst, k - from);
    RunZeros(after);
    RunInjective(RunBits(0, burst), 0, after);
  }

  /** A change confined to `width` <= 32 consecutive transmitted bits always changes the checksum. */
  lemma BurstDetected(crc: bv32, a: seq<Byte>, b: seq<Byte>, from: nat, width: nat)
    requires |a| == |b| && a != b
    requires width <= 32 && from + width <= 8 * |a|
    requires forall i :: 0 <= i < 8 * |a| && !(from <= i < from + width) ==> Bits(a)[i] == Bits(b)[i]
    ensures Crc(crc, a) != Crc(crc, b)
  {
    hide Bits, Syndrome, Crc;
    var k := DifferentBit(a, b);
    BurstHasSyndrome(XorBits(Bits(a), Bits(b)), from, width, k);
    DetectedByPattern(crc, a, b);
  }

  lemma DifferentBit(a: seq<Byte>, b: seq<Byte>) returns (k: nat)
    requires |a| == |b| && a != b
    ensures k < 8 * |a| && Bits(a)[k] != Bits(b)[k]
  {
    hide ByteBits, Bits;
    var i :| 0 <= i < |a| && a[i] != b[i];
    WideDifferent(a[i], b[i]);
    var j :| 0 <= j < 8 && ByteBits(a[i])[j] != ByteBits(b[i])[j];
    BitsAt(a, i, j);
    BitsAt(b, i, j);
    k := 8 * i + j;
  }

  lemma {:induction false} BitsAt(a: seq<Byte>, i: nat, j: nat)
    requires i < |a| && j < 8
    ensures Bits(a)[8 * i + j] == ByteBits(a[i])[j]
  {
    hide ByteBits;
    if i > 0 { BitsAt(a[1..], i - 1, j); }
  }

  lemma WideDifferent(x: Byte, y: Byte)
    requires x != y
    ensures ByteBits(x) != ByteBits(y)
  {
    hide BitsOf, Drop;
    Drop8(x as bv32);
    Drop8(y as bv32);
    RestOfFed(0, x);
    RestOfFed(0, y);
    if ByteBits(x) == ByteBits(y) {
      assert BitsOf(x as bv32, 8) == BitsOf(y as bv32, 8);
      BitsOfInjective(x as bv32, y as bv32, 8);
    }
  }

  /** In particular any change inside four neighbouring bytes. */
  lemma FourByteBurstDetected(crc: bv32, prefix: seq<Byte>, a: seq<Byte>, b: seq<Byte>, suffix: seq<Byte>)
    requires |a| == |b| <= 4 && a != b
    ensures Crc(crc, prefix + a + suffix) != Crc(crc, prefix + b + suffix)
  {
    hide Bits;
    var x, y := prefix + a + suffix, prefix + b + suffix;
    BitsAppend(prefix + a, suffix);
    BitsAppend(prefix, a);
    BitsAppend(prefix + b, suffix);
    BitsAppend(prefix, b);
    assert a == x[|prefix|..|prefix| + |a|] && b == y[|prefix|..|prefix| + |a|];
    BurstDetected(crc, x, y, 8 * |prefix|, 8 * |a|);
  }

  // ----- the frame check -----

  /** The value a receiver gets when it runs the checksum over a message and its trailing checksum. */
  const RESIDUE: bv32 := 0x2144DF1C

  /** A message followed by four bytes leaves the residue exactly when those bytes are its checksum. */
  lemma Residue(crc: bv32, message: seq<Byte>, trailer: seq<Byte>)
    requires |trailer| == 4
    ensures Crc(crc, message + trailer) == RESIDUE <==> trailer == Le32(Crc(crc, message))
  {
    hide RunBits, Bits, BitsOf, Shift, Xor, Not, Le32, FromLe32, Drop;
    var r, w := RunBits(Not(crc), Bits(message)), FromLe32(trailer);
    BitsAppend(message, trailer);
    RunAppend(Not(crc), Bits(message), Bits(trailer));
    Le32RoundTrip(Not(r), trailer);
    TrailerBits(trailer);
    Feed(r, w, 32);
    Drop32(w);
    XorUnit(RunBits(r, BitsOf(w, 32)));
    FullShift(Xor(r, w));
    assert Not(0xDEBB20E3) == RESIDUE by { ResidueNot(); }
    NotNot(Shift(Xor(r, w), 32));
    NotNot(0xDEBB20E3);
    AllOnes(r, w);
  }

  lemma ResidueNot()
    ensures Not(0xDEBB20E3) == RESIDUE
  {
  }

  lemma AllOnes(r: bv32, w: bv32)
    ensures Xor(r, w) == 0xFFFFFFFF <==> w == Not(r)
  {
    hide Xor;
    XorAssociates(r, r, w);
    XorAssociates(r, r, 0xFFFFFFFF);
    XorUnit(r);
    XorUnit(w);
    XorUnit(0xFFFFFFFF);
  }

  lemma TrailerBits(trailer: seq<Byte>)
    requires |trailer| == 4
    ensures Bits(trailer) == BitsOf(FromLe32(trailer), 32)
  {
    hide BitsOf, ByteBits, Drop, FromLe32, Rest, Bits;
    var w := FromLe32(trailer);
    var a, b, c, d := trailer[0], trailer[1], trailer[2], trailer[3];
    assert trailer == [a, b, c, d];
    WordBits(a, b, c, d);
    FourBytes(a, b, c, d);
    Drop8(w); Drop8(Rest(w)); Drop8(Rest(Rest(w)));
    DropSplit(w, 8, 8); DropSplit(w, 16, 8); DropSplit(w, 24, 8);
  }

  /** The bits of each byte are the low bits of the word shifted down to it. */
  lemma WordBits(a: Byte, b: Byte, c: Byte, d: Byte)
    ensures var w := FromLe32([a, b, c, d]);
            BitsOf(w, 8) == ByteBits(a) && BitsOf(Rest(w), 8) == ByteBits(b)
            && BitsOf(Rest(Rest(w)), 8) == ByteBits(c) && BitsOf(Rest(Rest(Rest(w))), 8) == ByteBits(d)
  {
    hide BitsOf, FromLe32, Rest;
    var w := FromLe32([a, b, c, d]);
    BytesOf(a, b, c, d);
    LowByte(w); LowByte(Rest(w)); LowByte(Rest(Rest(w))); LowByte(Rest(Rest(Rest(w))));
  }

  lemma FourBytes(a: Byte, b: Byte, c: Byte, d: Byte)
    ensures Bits([a, b, c, d])
         == ByteBits(a) + ByteBits(b) + ByteBits(c) + ByteBits(d)
  {
    hide ByteBits;
    assert [a, b, c, d][1..] == [b, c, d] && [b, c, d][1..] == [c, d] && [c, d][1..] == [d] && [d][1..] == [];
    assert Bits([c, d]) == ByteBits(c) + Bits([d]);
    assert Bits([a, b, c, d]) == ByteBits(a) + (ByteBits(b) + Bits([c, d]));
  }

  lemma LowByte(w: bv32)
    ensures BitsOf(w & 0xFF, 8) == BitsOf(w, 8)
  {
    hide Xor, BitsOf;
    var lo, hi := w & 0xFF, w & 0xFFFFFF00;
    LowHigh(w);
    HighBitsOf(w);
    BitsOfXor(lo, hi, 8);
    BitsOfZero(8);
  }

  lemma BytesOf(a: Byte, b: Byte, c: Byte, d: Byte)
    ensures FromLe32([a, b, c, d]) & 0xFF == a as bv32
    ensures Rest(FromLe32([a, b, c, d])) & 0xFF == b as bv32
    ensures Rest(Rest(FromLe32([a, b, c, d]))) & 0xFF == c as bv32
    ensures Rest(Rest(Rest(FromLe32([a, b, c, d])))) & 0xFF == d as bv32
  {
    Slices(a, b, c, d);
    Rests(FromLe32([a, b, c, d]));
  }

  lemma Rests(w: bv32)
    ensures Rest(Rest(w)) == w >> 16 && Rest(Rest(Rest(w))) == w >> 24
  {
  }

  lemma Slices(a: Byte, b: Byte, c: Byte, d: Byte)
    ensures FromLe32([a, b, c, d]) & 0xFF == a as bv32
    ensures (FromLe32([a, b, c, d]) >> 8) & 0xFF == b as bv32
    ensures (FromLe32([a, b, c, d]) >> 16) & 0xFF == c as bv32
    ensures (FromLe32([a, b, c, d]) >> 24) & 0xFF == d as bv32
  {
  }

  /** Thirty-two empty steps from an all-ones register, and only from there, end in the residue register. */
  lemma FullShift(x: bv32)
    ensures Shift(x, 32) == 0xDEBB20E3 <==> x == 0xFFFFFFFF
  {
    hide Shift, Shift8;
    Shift32(0xFFFFFFFF);
    FourShifts();
    ShiftInjective(x, 0xFFFFFFFF, 32);
  }

  lemma FourShifts()
    ensures Shift8(Shift8(Shift8(Shift8(0xFFFFFFFF)))) == 0xDEBB20E3
  {
    assert Shift8(0xFFFFFFFF) == 0x2DFD1072;
    assert Shift8(0x2DFD1072) == 0xBE26ED00;
    assert Shift8(0xBE26ED00) == 0x00BE26ED;
    assert Shift8(0x00BE26ED) == 0xDEBB20E3;
  }

  lemma Shift32(x: bv32)
    ensures Shift(x, 32) == Shift8(Shift8(Shift8(Shift8(x))))
  {
    hide Shift8, Shift;
    ShiftSplit(x, 8, 24);
    Shift8IsShift(x);
    ShiftSplit(Shift8(x), 8, 16);
    Shift8IsShift(Shift8(x));
    ShiftSplit(Shift8(Shift8(x)), 8, 8);
    Shift8IsShift(Shift8(Shift8(x)));
    Shift8IsShift(Shift8(Shift8(Shift8(x))));
  }

  lemma {:induction false} ShiftSplit(x: bv32, j: nat, k: nat)
    ensures Shift(Shift(x, j), k) == Shift(x, j + k)
    decreases j
  {
    hide BitStep;
    if j > 0 { ShiftSplit(BitStep(x, false), j - 1, k); }
  }

  lemma {:induction false} ShiftInjective(a: bv32, b: bv32, k: nat)
    ensures Shift(a, k) == Shift(b, k) <==> a == b
    decreases k
  {
    hide BitStep;
    if k > 0 {
      ShiftInjective(BitStep(a, false), BitStep(b, false), k - 1);
      if BitStep(a, false) == BitStep(b, false) { StepInjective(a, b, false); }
    }
  }
}
