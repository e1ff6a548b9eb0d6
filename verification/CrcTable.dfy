/** The lookup table of crc32.h, checked entry by entry against the bitwise register. */
module CrcTable {
  import opened Bytes
  import opened Lfsr

  const ROW0: seq<bv32> := [
    0x00000000, 0x77073096, 0xEE0E612C, 0x990951BA, 0x076DC419, 0x706AF48F, 0xE963A535, 0x9E6495A3,
    0x0EDB8832, 0x79DCB8A4, 0xE0D5E91E, 0x97D2D988, 0x09B64C2B, 0x7EB17CBD, 0xE7B82D07, 0x90BF1D91]
  const ROW1: seq<bv32> := [
    0x1DB71064, 0x6AB020F2, 0xF3B97148, 0x84BE41DE, 0x1ADAD47D, 0x6DDDE4EB, 0xF4D4B551, 0x83D385C7,
    0x136C9856, 0x646BA8C0, 0xFD62F97A, 0x8A65C9EC, 0x14015C4F, 0x63066CD9, 0xFA0F3D63, 0x8D080DF5]
  const ROW2: seq<bv32> := [
    0x3B6E20C8, 0x4C69105E, 0xD56041E4, 0xA2677172, 0x3C03E4D1, 0x4B04D447, 0xD20D85FD, 0xA50AB56B,
    0x35B5A8FA, 0x42B2986C, 0xDBBBC9D6, 0xACBCF940, 0x32D86CE3, 0x45DF5C75, 0xDCD60DCF, 0xABD13D59]
  const ROW3: seq<bv32> := [
    0x26D930AC, 0x51DE003A, 0xC8D75180, 0xBFD06116, 0x21B4F4B5, 0x56B3C423, 0xCFBA9599, 0xB8BDA50F,
    0x2802B89E, 0x5F058808, 0xC60CD9B2, 0xB10BE924, 0x2F6F7C87, 0x58684C11, 0xC1611DAB, 0xB6662D3D]
  const ROW4: seq<bv32> := [
    0x76DC4190, 0x01DB7106, 0x98D220BC, 0xEFD5102A, 0x71B18589, 0x06B6B51F, 0x9FBFE4A5, 0xE8B8D433,
    0x7807C9A2, 0x0F00F934, 0x9609A88E, 0xE10E9818, 0x7F6A0DBB, 0x086D3D2D, 0x91646C97, 0xE6635C01]
  const ROW5: seq<bv32> := [
    0x6B6B51F4, 0x1C6C6162, 0x856530D8, 0xF262004E, 0x6C0695ED, 0x1B01A57B, 0x8208F4C1, 0xF50FC457,
    0x65B0D9C6, 0x12B7E950, 0x8BBEB8EA, 0xFCB9887C, 0x62DD1DDF, 0x15DA2D49, 0x8CD37CF3, 0xFBD44C65]
  const ROW6: seq<bv32> := [
    0x4DB26158, 0x3AB551CE, 0xA3BC0074, 0xD4BB30E2, 0x4ADFA541, 0x3DD895D7, 0xA4D1C46D, 0xD3D6F4FB,
    0x4369E96A, 0x346ED9FC, 0xAD678846, 0xDA60B8D0, 0x44042D73, 0x33031DE5, 0xAA0A4C5F, 0xDD0D7CC9]
  const ROW7: seq<bv32> := [
    0x5005713C, 0x270241AA, 0xBE0B1010, 0xC90C2086, 0x5768B525, 0x206F85B3, 0xB966D409, 0xCE61E49F,
    0x5EDEF90E, 0x29D9C998, 0xB0D09822, 0xC7D7A8B4, 0x59B33D17, 0x2EB40D81, 0xB7BD5C3B, 0xC0BA6CAD]
  const ROW8: seq<bv32> := [
    0xEDB88320, 0x9ABFB3B6, 0x03B6E20C, 0x74B1D29A, 0xEAD54739, 0x9DD277AF, 0x04DB2615, 0x73DC1683,
    0xE3630B12, 0x94643B84, 0x0D6D6A3E, 0x7A6A5AA8, 0xE40ECF0B, 0x9309FF9D, 0x0A00AE27, 0x7D079EB1]
  const ROW9: seq<bv32> := [
    0xF00F9344, 0x8708A3D2, 0x1E01F268, 0x6906C2FE, 0xF762575D, 0x806567CB, 0x196C3671, 0x6E6B06E7,
    0xFED41B76, 0x89D32BE0, 0x10DA7A5A, 0x67DD4ACC, 0xF9B9DF6F, 0x8EBEEFF9, 0x17B7BE43, 0x60B08ED5]
  const ROWA: seq<bv32> := [
    0xD6D6A3E8, 0xA1D1937E, 0x38D8C2C4, 0x4FDFF252, 0xD1BB67F1, 0xA6BC5767, 0x3FB506DD, 0x48B2364B,
    0xD80D2BDA, 0xAF0A1B4C, 0x36034AF6, 0x41047A60, 0xDF60EFC3, 0xA867DF55, 0x316E8EEF, 0x4669BE79]
  const ROWB: seq<bv32> := [
    0xCB61B38C, 0xBC66831A, 0x256FD2A0, 0x5268E236, 0xCC0C7795, 0xBB0B4703, 0x220216B9, 0x5505262F,
    0xC5BA3BBE, 0xB2BD0B28, 0x2BB45A92, 0x5CB36A04, 0xC2D7FFA7, 0xB5D0CF31, 0x2CD99E8B, 0x5BDEAE1D]
  const ROWC: seq<bv32> := [
    0x9B64C2B0, 0xEC63F226, 0x756AA39C, 0x026D930A, 0x9C0906A9, 0xEB0E363F, 0x72076785, 0x05005713,
    0x95BF4A82, 0xE2B87A14, 0x7BB12BAE, 0x0CB61B38, 0x92D28E9B, 0xE5D5BE0D, 0x7CDCEFB7, 0x0BDBDF21]
  const ROWD: seq<bv32> := [
    0x86D3D2D4, 0xF1D4E242, 0x68DDB3F8, 0x1FDA836E, 0x81BE16CD, 0xF6B9265B, 0x6FB077E1, 0x18B74777,
    0x88085AE6, 0xFF0F6A70, 0x66063BCA, 0x11010B5C, 0x8F659EFF, 0xF862AE69, 0x616BFFD3, 0x166CCF45]
  const ROWE: seq<bv32> := [
    0xA00AE278, 0xD70DD2EE, 0x4E048354, 0x3903B3C2, 0xA7672661, 0xD06016F7, 0x4969474D, 0x3E6E77DB,
    0xAED16A4A, 0xD9D65ADC, 0x40DF0B66, 0x37D83BF0, 0xA9BCAE53, 0xDEBB9EC5, 0x47B2CF7F, 0x30B5FFE9]
  const ROWF: seq<bv32> := [
    0xBDBDF21C, 0xCABAC28A, 0x53B39330, 0x24B4A3A6, 0xBAD03605, 0xCDD70693, 0x54DE5729, 0x23D967BF,
    0xB3667A2E, 0xC4614AB8, 0x5D681B02, 0x2A6F2B94, 0xB40BBE37, 0xC30C8EA1, 0x5A05DF1B, 0x2D02EF8D]

  const QUARTER0: seq<bv32> := ROW0 + ROW1 + ROW2 + ROW3
  const QUARTER1: seq<bv32> := ROW4 + ROW5 + ROW6 + ROW7
  const QUARTER2: seq<bv32> := ROW8 + ROW9 + ROWA + ROWB
  const QUARTER3: seq<bv32> := ROWC + ROWD + ROWE + ROWF

  /** The 256 entries in the order of the source, written as rows of sixteen. */
  const CRC_TABLE: seq<bv32> := QUARTER0 + QUARTER1 + QUARTER2 + QUARTER3

  /** `Shift(r, 8)`, written out so that it can be computed. */
  function Shift8(r: bv32): bv32 {
    var r4 := BitStep(BitStep(BitStep(BitStep(r, false), false), false), false);
    BitStep(BitStep(BitStep(BitStep(r4, false), false), false), false)
  }

  lemma Shift8IsShift(r: bv32)
    ensures Shift8(r) == Shift(r, 8)
  {
    hide BitStep;
    var r4 := BitStep(BitStep(BitStep(BitStep(r, false), false), false), false);
    assert Shift(r4, 4) == Shift8(r);
    assert Shift(r, 8) == Shift(r4, 4);
  }

  lemma Row0(b: Byte)
    requires b >> 4 == 0
    ensures 0 <= b as int < 16 && ROW0[b as int] == Shift8(b as bv32)
  {
  }

  lemma Row1(b: Byte)
    requires b >> 4 == 1
    ensures 16 <= b as int < 32 && ROW1[b as int - 16] == Shift8(b as bv32)
  {
  }

  lemma Row2(b: Byte)
    requires b >> 4 == 2
    ensures 32 <= b as int < 48 && ROW2[b as int - 32] == Shift8(b as bv32)
  {
  }

  lemma Row3(b: Byte)
    requires b >> 4 == 3
    ensures 48 <= b as int < 64 && ROW3[b as int - 48] == Shift8(b as bv32)
  {
  }

  lemma Row4(b: Byte)
    requires b >> 4 == 4
    ensures 64 <= b as int < 80 && ROW4[b as int - 64] == Shift8(b as bv32)
  {
  }

  lemma Row5(b: Byte)
    requires b >> 4 == 5
    ensures 80 <= b as int < 96 && ROW5[b as int - 80] == Shift8(b as bv32)
  {
  }

  lemma Row6(b: Byte)
    requires b >> 4 == 6
    ensures 96 <= b as int < 112 && ROW6[b as int - 96] == Shift8(b as bv32)
  {
  }

  lemma Row7(b: Byte)
    requires b >> 4 == 7
    ensures 112 <= b as int < 128 && ROW7[b as int - 112] == Shift8(b as bv32)
  {
  }

  lemma Row8(b: Byte)
    requires b >> 4 == 8
    ensures 128 <= b as int < 144 && ROW8[b as int - 128] == Shift8(b as bv32)
  {
  }

  lemma Row9(b: Byte)
    requires b >> 4 == 9
    ensures 144 <= b as int < 160 && ROW9[b as int - 144] == Shift8(b as bv32)
  {
  }

  lemma RowA(b: Byte)
    requires b >> 4 == 10
    ensures 160 <= b as int < 176 && ROWA[b as int - 160] == Shift8(b as bv32)
  {
  }

  lemma RowB(b: Byte)
    requires b >> 4 == 11
    ensures 176 <= b as int < 192 && ROWB[b as int - 176] == Shift8(b as bv32)
  {
  }

  lemma RowC(b: Byte)
    requires b >> 4 == 12
    ensures 192 <= b as int < 208 && ROWC[b as int - 192] == Shift8(b as bv32)
  {
  }

  lemma RowD(b: Byte)
    requires b >> 4 == 13
    ensures 208 <= b as int < 224 && ROWD[b as int - 208] == Shift8(b as bv32)
  {
  }

  lemma RowE(b: Byte)
    requires b >> 4 == 14
    ensures 224 <= b as int < 240 && ROWE[b as int - 224] == Shift8(b as bv32)
  {
  }

  lemma RowF(b: Byte)
    requires b >> 4 == 15
    ensures 240 <= b as int < 256 && ROWF[b as int - 240] == Shift8(b as bv32)
  {
  }

  lemma RowAt(p: seq<bv32>, q: seq<bv32>, r: seq<bv32>, s: seq<bv32>, i: nat)
    requires |p| == 16 && |q| == 16 && |r| == 16 && |s| == 16 && i < 64
    ensures |p + q + r + s| == 64
    ensures (p + q + r + s)[i] ==
            if i < 16 then p[i] else if i < 32 then q[i - 16] else if i < 48 then r[i - 32] else s[i - 48]
  {
  }

  lemma Quarter0(b: Byte)
    requires b >> 6 == 0
    ensures |QUARTER0| == 64 && 0 <= b as int < 64
    ensures QUARTER0[b as int] == Shift8(b as bv32)
  {
    hide Shift8;
    if b >> 4 == 0 { Row0(b); } else if b >> 4 == 1 { Row1(b); } else if b >> 4 == 2 { Row2(b); } else { Row3(b); }
    RowAt(ROW0, ROW1, ROW2, ROW3, b as int);
  }

  lemma Quarter1(b: Byte)
    requires b >> 6 == 1
    ensures |QUARTER1| == 64 && 64 <= b as int < 128
    ensures QUARTER1[b as int - 64] == Shift8(b as bv32)
  {
    hide Shift8;
    if b >> 4 == 4 { Row4(b); } else if b >> 4 == 5 { Row5(b); } else if b >> 4 == 6 { Row6(b); } else { Row7(b); }
    RowAt(ROW4, ROW5, ROW6, ROW7, b as int - 64);
  }

  lemma Quarter2(b: Byte)
    requires b >> 6 == 2
    ensures |QUARTER2| == 64 && 128 <= b as int < 192
    ensures QUARTER2[b as int - 128] == Shift8(b as bv32)
  {
    hide Shift8;
    if b >> 4 == 8 { Row8(b); } else if b >> 4 == 9 { Row9(b); } else if b >> 4 == 10 { RowA(b); } else { RowB(b); }
    RowAt(ROW8, ROW9, ROWA, ROWB, b as int - 128);
  }

  lemma Quarter3(b: Byte)
    requires b >> 6 == 3
    ensures |QUARTER3| == 64 && 192 <= b as int < 256
    ensures QUARTER3[b as int - 192] == Shift8(b as bv32)
  {
    hide Shift8;
    if b >> 4 == 12 { RowC(b); } else if b >> 4 == 13 { RowD(b); } else if b >> 4 == 14 { RowE(b); } else { RowF(b); }
    RowAt(ROWC, ROWD, ROWE, ROWF, b as int - 192);
  }

  lemma QuarterAt(a: seq<bv32>, b: seq<bv32>, c: seq<bv32>, d: seq<bv32>, i: nat)
    requires |a| == 64 && |b| == 64 && |c| == 64 && |d| == 64 && i < 256
    ensures |a + b + c + d| == 256
    ensures (a + b + c + d)[i] ==
            if i < 64 then a[i] else if i < 128 then b[i - 64] else if i < 192 then c[i - 128] else d[i - 192]
  {
  }

  lemma TopBits(b: Byte)
    ensures b >> 6 != 0 && b >> 6 != 1 && b >> 6 != 2 ==> b >> 6 == 3
  {
  }

  /** Every table entry is eight bitwise steps of its index. */
  lemma TableEntry(b: Byte)
    ensures |CRC_TABLE| == 256 && 0 <= b as int < 256
    ensures CRC_TABLE[b as int] == Shift8(b as bv32)
  {
    hide Shift8;
    QuarterAt(QUARTER0, QUARTER1, QUARTER2, QUARTER3, b as int);
    TopBits(b);
    if b >> 6 == 0 {
      Quarter0(b);
    } else if b >> 6 == 1 {
      Quarter1(b);
    } else if b >> 6 == 2 {
      Quarter2(b);
    } else {
      Quarter3(b);
    }
  }

  /** A table read, named so that long proofs need not see the table. */
  function Lookup(b: Byte): bv32 {
    TableEntry(b);
    CRC_TABLE[b as int]
  }

  lemma LookupIsShift(b: Byte)
    ensures Lookup(b) == Shift(b as bv32, 8)
  {
    hide Shift, Shift8;
    TableEntry(b);
    Shift8IsShift(b as bv32);
  }
}
