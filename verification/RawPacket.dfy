/**
 raw_packet.h: the packed header structs as datatypes, and the bytes a little-endian compiler lays them out as
 (bit fields fill a word from its low end). The layout is a bijection, and the masking that the checksum applies
 to fields is a bytewise OR of the layout.
*/
module RawPacket {
  import opened Bytes

  /** constants.h */
  const MSG_SIZE: nat := 8940

  type Gid = s: seq<Byte> | |s| == 16 witness seq(16, _ => 0)
  type Mac = s: seq<Byte> | |s| == 6 witness seq(6, _ => 0)

  datatype Grh = Grh(
    trafficClassP1: bv4, ipVersion: bv4, trafficClassP2: bv4, flowLabel: bv20,
    payloadLength: bv16, nextHeader: bv8, hopLimit: bv8, source: Gid, dest: Gid)

  datatype Bth = Bth(
    opcode: bv8, transportHdrVersion: bv4, padCount: bv2, migrationRequest: bv1, sollicitedEvent: bv1,
    partitionKey: bv16, reserved1: bv8, destinationQp: bv24,
    acknowledgeReq: bv1, reserved2: bv7, packetSequence: bv24)

  datatype Deth = Deth(queueKey: bv32, reserved: bv8, sourceQp: bv24)

  datatype IbHeaders = IbHeaders(grh: Grh, bth: Bth, deth: Deth)

  datatype EthHdr = EthHdr(dest: Mac, source: Mac, proto: bv16)

  const GRH_SIZE: nat := 40
  const BTH_SIZE: nat := 12
  const DETH_SIZE: nat := 8
  const IB_SIZE: nat := GRH_SIZE + BTH_SIZE + DETH_SIZE
  const ETH_SIZE: nat := 14

  // ----- layout -----

  function GrhWord(p1: bv4, version: bv4, p2: bv4, flow: bv20): bv32 {
    (p1 as bv32) | ((version as bv32) << 4) | ((p2 as bv32) << 8) | ((flow as bv32) << 12)
  }

  function GrhBytes(g: Grh): (s: seq<Byte>)
    ensures |s| == GRH_SIZE
  {
    Le32(GrhWord(g.trafficClassP1, g.ipVersion, g.trafficClassP2, g.flowLabel))
    + Le16(g.payloadLength) + [g.nextHeader, g.hopLimit] + g.source + g.dest
  }

  function BthFlags(version: bv4, pad: bv2, migration: bv1, sollicited: bv1): bv8 {
    (version as bv8) | ((pad as bv8) << 4) | ((migration as bv8) << 6) | ((sollicited as bv8) << 7)
  }

  /** An 8-bit field below a 24-bit field. */
  function Word8And24(low: bv8, high: bv24): bv32 {
    (low as bv32) | ((high as bv32) << 8)
  }

  function PsnWord(ack: bv1, reserved: bv7, psn: bv24): bv32 {
    (ack as bv32) | ((reserved as bv32) << 1) | ((psn as bv32) << 8)
  }

  function BthBytes(b: Bth): (s: seq<Byte>)
    ensures |s| == BTH_SIZE
  {
    [b.opcode, BthFlags(b.transportHdrVersion, b.padCount, b.migrationRequest, b.sollicitedEvent)]
    + Le16(b.partitionKey) + Le32(Word8And24(b.reserved1, b.destinationQp))
    + Le32(PsnWord(b.acknowledgeReq, b.reserved2, b.packetSequence))
  }

  function DethBytes(d: Deth): (s: seq<Byte>)
    ensures |s| == DETH_SIZE
  {
    Le32(d.queueKey) + Le32(Word8And24(d.reserved, d.sourceQp))
  }

  function IbBytes(h: IbHeaders): (s: seq<Byte>)
    ensures |s| == IB_SIZE
  {
    GrhBytes(h.grh) + BthBytes(h.bth) + DethBytes(h.deth)
  }

  function EthBytes(e: EthHdr): (s: seq<Byte>)
    ensures |s| == ETH_SIZE
  {
    e.dest + e.source + Le16(e.proto)
  }

  // ----- the way back -----

  function GrhOf(s: seq<Byte>): Grh
    requires |s| == GRH_SIZE
  {
    var w := FromLe32(s[..4]);
    Grh((w & 0xF) as bv4, ((w >> 4) & 0xF) as bv4, ((w >> 8) & 0xF) as bv4, (w >> 12) as bv20,
        FromLe16(s[4..6]), s[6], s[7], s[8..24], s[24..40])
  }

  function BthOf(s: seq<Byte>): Bth
    requires |s| == BTH_SIZE
  {
    var f, q, p := s[1], FromLe32(s[4..8]), FromLe32(s[8..12]);
    Bth(s[0], (f & 0xF) as bv4, ((f >> 4) & 3) as bv2, ((f >> 6) & 1) as bv1, (f >> 7) as bv1, FromLe16(s[2..4]),
        (q & 0xFF) as bv8, (q >> 8) as bv24, (p & 1) as bv1, ((p >> 1) & 0x7F) as bv7, (p >> 8) as bv24)
  }

  function DethOf(s: seq<Byte>): Deth
    requires |s| == DETH_SIZE
  {
    var q := FromLe32(s[4..8]);
    Deth(FromLe32(s[..4]), (q & 0xFF) as bv8, (q >> 8) as bv24)
  }

  function IbHeadersOf(s: seq<Byte>): IbHeaders
    requires |s| == IB_SIZE
  {
    IbHeaders(GrhOf(s[..40]), BthOf(s[40..52]), DethOf(s[52..60]))
  }

  lemma GrhWordFields(p1: bv4, version: bv4, p2: bv4, flow: bv20)
    ensures var w := GrhWord(p1, version, p2, flow);
            (w & 0xF) as bv4 == p1 && ((w >> 4) & 0xF) as bv4 == version
            && ((w >> 8) & 0xF) as bv4 == p2 && (w >> 12) as bv20 == flow
  {
  }

  lemma GrhWordOf(w: bv32)
    ensures GrhWord((w & 0xF) as bv4, ((w >> 4) & 0xF) as bv4, ((w >> 8) & 0xF) as bv4, (w >> 12) as bv20) == w
  {
  }

  lemma BthFlagFields(version: bv4, pad: bv2, migration: bv1, sollicited: bv1)
    ensures var f := BthFlags(version, pad, migration, sollicited);
            (f & 0xF) as bv4 == version && ((f >> 4) & 3) as bv2 == pad
            && ((f >> 6) & 1) as bv1 == migration && (f >> 7) as bv1 == sollicited
  {
  }

  lemma BthFlagsOf(f: bv8)
    ensures BthFlags((f & 0xF) as bv4, ((f >> 4) & 3) as bv2, ((f >> 6) & 1) as bv1, (f >> 7) as bv1) == f
  {
  }

  lemma Word8And24Fields(low: bv8, high: bv24, w: bv32)
    ensures (Word8And24(low, high) & 0xFF) as bv8 == low && (Word8And24(low, high) >> 8) as bv24 == high
    ensures Word8And24((w & 0xFF) as bv8, (w >> 8) as bv24) == w
  {
  }

  lemma PsnWordFields(ack: bv1, reserved: bv7, psn: bv24, w: bv32)
    ensures var p := PsnWord(ack, reserved, psn);
            (p & 1) as bv1 == ack && ((p >> 1) & 0x7F) as bv7 == reserved && (p >> 8) as bv24 == psn
    ensures PsnWord((w & 1) as bv1, ((w >> 1) & 0x7F) as bv7, (w >> 8) as bv24) == w
  {
  }

  /** Reading back what the layout wrote gives the header, and every 60 bytes are the layout of some header. */
  lemma IbRoundTrip(h: IbHeaders, s: seq<Byte>)
    requires |s| == IB_SIZE
    ensures IbHeadersOf(IbBytes(h)) == h
    ensures IbBytes(IbHeadersOf(s)) == s
  {
    hide GrhBytes, BthBytes, DethBytes, GrhOf, BthOf, DethOf;
    GrhRoundTrip(h.grh, s[..40]);
    BthRoundTrip(h.bth, s[40..52]);
    DethRoundTrip(h.deth, s[52..60]);
    var t := IbBytes(h);
    assert t[..40] == GrhBytes(h.grh) && t[40..52] == BthBytes(h.bth) && t[52..60] == DethBytes(h.deth);
    assert s == s[..40] + s[40..52] + s[52..60];
  }

  lemma GrhRoundTrip(g: Grh, s: seq<Byte>)
    requires |s| == GRH_SIZE
    ensures GrhOf(GrhBytes(g)) == g
    ensures GrhBytes(GrhOf(s)) == s
  {
    hide GrhOf, GrhBytes;
    GrhReadBack(g);
    GrhWriteBack(s);
  }

  lemma SlicesOfGrh(w: seq<Byte>, l: seq<Byte>, n: seq<Byte>, a: seq<Byte>, b: seq<Byte>)
    requires |w| == 4 && |l| == 2 && |n| == 2 && |a| == 16 && |b| == 16
    ensures var s := w + l + n + a + b;
            s[..4] == w && s[4..6] == l && s[6] == n[0] && s[7] == n[1] && s[8..24] == a && s[24..40] == b
  {
  }

  lemma GrhParts(g: Grh)
    ensures var t := GrhBytes(g);
            t[..4] == Le32(GrhWord(g.trafficClassP1, g.ipVersion, g.trafficClassP2, g.flowLabel))
            && t[4..6] == Le16(g.payloadLength) && t[6] == g.nextHeader && t[7] == g.hopLimit
            && t[8..24] == g.source && t[24..40] == g.dest
  {
    hide GrhWord, Le32, Le16;
    SlicesOfGrh(Le32(GrhWord(g.trafficClassP1, g.ipVersion, g.trafficClassP2, g.flowLabel)),
                Le16(g.payloadLength), [g.nextHeader, g.hopLimit], g.source, g.dest);
  }

  lemma GrhReadBack(g: Grh)
    ensures GrhOf(GrhBytes(g)) == g
  {
    hide GrhBytes, GrhWord, Le32, FromLe32, Le16, FromLe16;
    GrhParts(g);
    GrhWordFields(g.trafficClassP1, g.ipVersion, g.trafficClassP2, g.flowLabel);
    Le32RoundTrip(GrhWord(g.trafficClassP1, g.ipVersion, g.trafficClassP2, g.flowLabel), [0, 0, 0, 0]);
    Le16RoundTrip(g.payloadLength, 0, 0);
  }

  lemma GrhOfWords(s: seq<Byte>)
    requires |s| == GRH_SIZE
    ensures var g := GrhOf(s);
            GrhWord(g.trafficClassP1, g.ipVersion, g.trafficClassP2, g.flowLabel) == FromLe32(s[..4])
            && g.payloadLength == FromLe16(s[4..6]) && g.nextHeader == s[6] && g.hopLimit == s[7]
            && g.source == s[8..24] && g.dest == s[24..40]
  {
    hide GrhWord, FromLe32, FromLe16;
    GrhWordOf(FromLe32(s[..4]));
  }

  lemma PiecesOfGrh(s: seq<Byte>)
    requires |s| == GRH_SIZE
    ensures s[4..6] == [s[4], s[5]] && s == s[..4] + s[4..6] + [s[6], s[7]] + s[8..24] + s[24..40]
  {
  }

  lemma GrhWriteBack(s: seq<Byte>)
    requires |s| == GRH_SIZE
    ensures GrhBytes(GrhOf(s)) == s
  {
    hide GrhOf, GrhWord, Le32, FromLe32, Le16, FromLe16;
    GrhOfWords(s);
    Le32RoundTrip(0, s[..4]);
    Le16RoundTrip(0, s[4], s[5]);
    PiecesOfGrh(s);
  }

  lemma BthRoundTrip(b: Bth, s: seq<Byte>)
    requires |s| == BTH_SIZE
    ensures BthOf(BthBytes(b)) == b
    ensures BthBytes(BthOf(s)) == s
  {
    hide BthOf, BthBytes;
    BthReadBack(b);
    BthWriteBack(s);
  }

  lemma Slices2244(f: seq<Byte>, p: seq<Byte>, q: seq<Byte>, r: seq<Byte>)
    requires |f| == 2 && |p| == 2 && |q| == 4 && |r| == 4
    ensures var s := f + p + q + r;
            s[0] == f[0] && s[1] == f[1] && s[2..4] == p && s[4..8] == q && s[8..12] == r
  {
  }

  lemma BthParts(b: Bth)
    ensures var t := BthBytes(b);
            t[0] == b.opcode && t[2..4] == Le16(b.partitionKey)
            && t[1] == BthFlags(b.transportHdrVersion, b.padCount, b.migrationRequest, b.sollicitedEvent)
            && t[4..8] == Le32(Word8And24(b.reserved1, b.destinationQp))
            && t[8..12] == Le32(PsnWord(b.acknowledgeReq, b.reserved2, b.packetSequence))
  {
    hide BthFlags, Word8And24, PsnWord, Le32, Le16;
    Slices2244([b.opcode, BthFlags(b.transportHdrVersion, b.padCount, b.migrationRequest, b.sollicitedEvent)],
               Le16(b.partitionKey), Le32(Word8And24(b.reserved1, b.destinationQp)),
               Le32(PsnWord(b.acknowledgeReq, b.reserved2, b.packetSequence)));
  }

  lemma BthReadBack(b: Bth)
    ensures BthOf(BthBytes(b)) == b
  {
    hide BthBytes, BthFlags, Word8And24, PsnWord, Le32, FromLe32, Le16, FromLe16;
    BthParts(b);
    BthFlagFields(b.transportHdrVersion, b.padCount, b.migrationRequest, b.sollicitedEvent);
    Word8And24Fields(b.reserved1, b.destinationQp, 0);
    PsnWordFields(b.acknowledgeReq, b.reserved2, b.packetSequence, 0);
    Le32RoundTrip(Word8And24(b.reserved1, b.destinationQp), [0, 0, 0, 0]);
    Le32RoundTrip(PsnWord(b.acknowledgeReq, b.reserved2, b.packetSequence), [0, 0, 0, 0]);
    Le16RoundTrip(b.partitionKey, 0, 0);
  }

  lemma BthOfWords(s: seq<Byte>)
    requires |s| == BTH_SIZE
    ensures var b := BthOf(s);
            b.opcode == s[0] && b.partitionKey == FromLe16(s[2..4])
            && BthFlags(b.transportHdrVersion, b.padCount, b.migrationRequest, b.sollicitedEvent) == s[1]
            && Word8And24(b.reserved1, b.destinationQp) == FromLe32(s[4..8])
            && PsnWord(b.acknowledgeReq, b.reserved2, b.packetSequence) == FromLe32(s[8..12])
  {
    hide BthFlags, Word8And24, PsnWord, Le32, FromLe32, Le16, FromLe16;
    BthFlagsOf(s[1]);
    Word8And24Fields(0, 0, FromLe32(s[4..8]));
    PsnWordFields(0, 0, 0, FromLe32(s[8..12]));
  }

  lemma Pieces2244(s: seq<Byte>)
    requires |s| == BTH_SIZE
    ensures s[2..4] == [s[2], s[3]] && s == [s[0], s[1]] + s[2..4] + s[4..8] + s[8..12]
  {
  }

  lemma BthWriteBack(s: seq<Byte>)
    requires |s| == BTH_SIZE
    ensures BthBytes(BthOf(s)) == s
  {
    hide BthOf, BthFlags, Word8And24, PsnWord, Le32, FromLe32, Le16, FromLe16;
    BthOfWords(s);
    Le32RoundTrip(0, s[4..8]);
    Le32RoundTrip(0, s[8..12]);
    Le16RoundTrip(0, s[2], s[3]);
    Pieces2244(s);
  }

  lemma DethRoundTrip(d: Deth, s: seq<Byte>)
    requires |s| == DETH_SIZE
    ensures DethOf(DethBytes(d)) == d
    ensures DethBytes(DethOf(s)) == s
  {
    hide DethOf, DethBytes;
    DethReadBack(d);
    DethWriteBack(s);
  }

  lemma DethReadBack(d: Deth)
    ensures DethOf(DethBytes(d)) == d
  {
    hide Word8And24, Le32, FromLe32;
    Word8And24Fields(d.reserved, d.sourceQp, 0);
    Le32RoundTrip(d.queueKey, [0, 0, 0, 0]);
    Le32RoundTrip(Word8And24(d.reserved, d.sourceQp), [0, 0, 0, 0]);
    var t := DethBytes(d);
    assert t[..4] == Le32(d.queueKey) && t[4..8] == Le32(Word8And24(d.reserved, d.sourceQp));
  }

  lemma DethOfWords(s: seq<Byte>)
    requires |s| == DETH_SIZE
    ensures var d := DethOf(s);
            d.queueKey == FromLe32(s[..4]) && Word8And24(d.reserved, d.sourceQp) == FromLe32(s[4..8])
  {
    hide Word8And24, FromLe32;
    Word8And24Fields(0, 0, FromLe32(s[4..8]));
  }

  lemma DethWriteBack(s: seq<Byte>)
    requires |s| == DETH_SIZE
    ensures DethBytes(DethOf(s)) == s
  {
    hide DethOf, Word8And24, Le32, FromLe32;
    DethOfWords(s);
    Le32RoundTrip(0, s[..4]);
    Le32RoundTrip(0, s[4..8]);
    assert s == s[..4] + s[4..8];
  }

  // ----- masking -----

  function MaskedGrh(g: Grh): Grh {
    g.(trafficClassP1 := 0xF, trafficClassP2 := 0xF, flowLabel := 0xFFFFF, hopLimit := 0xFF)
  }

  function MaskedBth(b: Bth): Bth {
    b.(reserved1 := 0xFF)
  }

  function Masked(h: IbHeaders): IbHeaders {
    IbHeaders(MaskedGrh(h.grh), MaskedBth(h.bth), h.deth)
  }

  const PADDING: seq<Byte> := [0xFF, 0xFF, 0xFF, 0xFF, 0xFF, 0xFF, 0xFF, 0xFF]

  /** What the header checksum covers: 64 one bits, then the headers with their variant fields all ones. */
  function MaskedImage(h: IbHeaders): (s: seq<Byte>)
    ensures |s| == 8 + IB_SIZE
    ensures s[..8] == [0xFF, 0xFF, 0xFF, 0xFF, 0xFF, 0xFF, 0xFF, 0xFF]
  {
    PADDING + IbBytes(Masked(h))
  }

  /** The bits of header byte `i` that a router may rewrite. */
  function VariantBits(i: nat): Byte {
    if i == 0 then 0x0F else if i in {1, 2, 3, 7, 44} then 0xFF else 0
  }

  function OrVariant(s: seq<Byte>): (t: seq<Byte>)
    ensures |t| == |s|
  {
    seq(|s|, i requires 0 <= i < |s| => s[i] | VariantBits(i))
  }

  lemma OrZero(b: Byte)
    ensures b | 0 == b
    ensures b | 0xFF == 0xFF
  {
  }

  lemma MaskedGrhWord(p1: bv4, version: bv4, p2: bv4, flow: bv20)
    ensures var w, m := Le32(GrhWord(p1, version, p2, flow)), Le32(GrhWord(0xF, version, 0xF, 0xFFFFF));
            m == [w[0] | 0x0F, 0xFF, 0xFF, 0xFF]
  {
  }

  lemma MaskedQpWord(reserved: bv8, qp: bv24)
    ensures var w, m := Le32(Word8And24(reserved, qp)), Le32(Word8And24(0xFF, qp));
            m == [0xFF, w[1], w[2], w[3]]
  {
  }

  lemma MaskedGrhBytes(g: Grh, i: nat)
    requires i < GRH_SIZE
    ensures GrhBytes(MaskedGrh(g))[i] == GrhBytes(g)[i] | VariantBits(i)
  {
    hide GrhWord, Le32, Le16;
    MaskedGrhWord(g.trafficClassP1, g.ipVersion, g.trafficClassP2, g.flowLabel);
    OrZero(GrhBytes(g)[i]);
  }

  lemma MaskedBthBytes(b: Bth, i: nat)
    requires i < BTH_SIZE
    ensures BthBytes(MaskedBth(b))[i] == BthBytes(b)[i] | VariantBits(40 + i)
  {
    hide BthFlags, Word8And24, PsnWord, Le32, Le16;
    MaskedQpWord(b.reserved1, b.destinationQp);
    OrZero(BthBytes(b)[i]);
  }

  /** Masking the fields is the same as OR-ing the variant bits into the bytes on the wire. */
  lemma MaskIsBytewise(h: IbHeaders)
    ensures MaskedImage(h) == PADDING + OrVariant(IbBytes(h))
  {
    hide GrhBytes, BthBytes, DethBytes, VariantBits;
    var s, m := IbBytes(h), IbBytes(Masked(h));
    forall i | 0 <= i < IB_SIZE ensures m[i] == s[i] | VariantBits(i) {
      if i < 40 {
        MaskedGrhBytes(h.grh, i);
      } else if i < 52 {
        MaskedBthBytes(h.bth, i - 40);
      } else {
        assert VariantBits(i) == 0 by { NoVariantBits(i); }
        OrZero(s[i]);
      }
    }
    assert m == OrVariant(s);
  }

  lemma NoVariantBits(i: nat)
    requires i >= 52
    ensures VariantBits(i) == 0
  {
  }

  /** Agreement on every field except traffic class, flow label, hop limit and the BTH reserved byte. */
  ghost predicate SameInvariantFields(a: IbHeaders, b: IbHeaders) {
    && a.grh.ipVersion == b.grh.ipVersion
    && a.grh.payloadLength == b.grh.payloadLength
    && a.grh.nextHeader == b.grh.nextHeader
    && a.grh.source == b.grh.source
    && a.grh.dest == b.grh.dest
    && a.bth.opcode == b.bth.opcode
    && a.bth.transportHdrVersion == b.bth.transportHdrVersion
    && a.bth.padCount == b.bth.padCount
    && a.bth.migrationRequest == b.bth.migrationRequest
    && a.bth.sollicitedEvent == b.bth.sollicitedEvent
    && a.bth.partitionKey == b.bth.partitionKey
    && a.bth.destinationQp == b.bth.destinationQp
    && a.bth.acknowledgeReq == b.bth.acknowledgeReq
    && a.bth.reserved2 == b.bth.reserved2
    && a.bth.packetSequence == b.bth.packetSequence
    && a.deth == b.deth
  }

  /** The masked image determines, and is determined by, the invariant fields. */
  lemma ImageIffInvariantFields(a: IbHeaders, b: IbHeaders)
    ensures MaskedImage(a) == MaskedImage(b) <==> SameInvariantFields(a, b)
  {
    hide IbBytes, IbHeadersOf;
    var x, y := Masked(a), Masked(b);
    IbRoundTrip(x, IbBytes(x));
    IbRoundTrip(y, IbBytes(y));
    assert IbBytes(x) == MaskedImage(a)[8..] && IbBytes(y) == MaskedImage(b)[8..];
    assert x == y <==> SameInvariantFields(a, b);
  }
}
