/**
 raw_ibverbs.c: the packet, the invariant checksum of its headers and of the whole (section 7.8.1 of the InfiniBand
 Architecture Specification, Volume 1), and the header set-up that returns the checksum to be cached.
*/
module RawIbverbs {
  import opened Buffers
  import opened Bytes
  import opened Lfsr
  import opened Crc32
  import opened RawPacket

  /** lookup_addr.h, without the IPv4 address that these packets never carry. */
  datatype Addr = Addr(mac: Mac, ipv6: Gid)

  const CHECKSUM_SIZE: nat := 4
  const IB_TRANSPORT_HEADER_SIZE: nat := BTH_SIZE + DETH_SIZE
  const TOTAL_HEADER_SIZE: nat := ETH_SIZE + IB_SIZE

  /** `struct packet` followed by the four bytes that the send loop stores its checksum in. */
  class Packet {
    var etherHeader: EthHdr
    var ibHeader: IbHeaders
    const data: array<Byte>

    ghost predicate Valid() {
      data.Length == MSG_SIZE + CHECKSUM_SIZE
    }

    function HeaderBytes(): (s: seq<Byte>)
      reads this
      ensures |s| == TOTAL_HEADER_SIZE
    {
      EthBytes(etherHeader) + IbBytes(ibHeader)
    }

    constructor (etherHeader: EthHdr, ibHeader: IbHeaders)
      ensures Valid() && fresh(data)
      ensures this.etherHeader == etherHeader && this.ibHeader == ibHeader
      ensures forall i :: 0 <= i < data.Length ==> data[i] == 0
    {
      this.etherHeader := etherHeader;
      this.ibHeader := ibHeader;
      this.data := new Byte[MSG_SIZE + CHECKSUM_SIZE](_ => 0);
    }
  }

  /** A struct in memory, as the byte pointer of `crc32` sees it. */
  method AsBytes(s: seq<Byte>) returns (a: array<Byte>)
    ensures fresh(a) && a[..] == s
  {
    a := new Byte[|s|];
    forall i | 0 <= i < |s| {
      a[i] := s[i];
    }
  }

  /** `*checksum = crc` through a `uint32_t` pointer into the buffer. */
  method StoreChecksum(buffer: array<Byte>, offset: nat, crc: bv32)
    requires offset + 4 <= buffer.Length
    modifies buffer
    ensures buffer[..] == Patch(old(buffer[..]), offset, Le32(crc))
  {
    hide Le32;
    var raw := Le32(crc);
    buffer[offset], buffer[offset + 1], buffer[offset + 2], buffer[offset + 3] := raw[0], raw[1], raw[2], raw[3];
  }

  // ----- checksums -----

  /** `crc32` over a struct in memory. */
  method CrcOfStruct(crc: bv32, raw: seq<Byte>) returns (r: bv32)
    requires |raw| < 0x8000_0000
    ensures r == Crc(crc, raw)
  {
    hide Crc, Visited;
    var bytes := AsBytes(raw);
    VisitsWholeBuffer(|raw|);
    r := TableCrc(crc, bytes, 0, |raw|);
    assert bytes[0..|raw|] == raw;
  }

  /** `ib_header_checksum`: the packet is only read; the masked fields belong to local copies. */
  method IbHeaderChecksum(packet: Packet) returns (crc: bv32)
    ensures crc == Crc(0, MaskedImage(packet.ibHeader))
  {
    hide Crc, GrhBytes, BthBytes, DethBytes;
    var grh := packet.ibHeader.grh;
    var bth := packet.ibHeader.bth;

    grh := grh.(trafficClassP1 := 0xF);
    grh := grh.(trafficClassP2 := 0xF);
    grh := grh.(flowLabel := 0xFFFFF);
    grh := grh.(hopLimit := 0xFF);

    bth := bth.(reserved1 := 0xFF);

    crc := CrcOfStruct(0, PADDING);
    crc := CrcOfStruct(crc, GrhBytes(grh));
    crc := CrcOfStruct(crc, BthBytes(bth));
    crc := CrcOfStruct(crc, DethBytes(packet.ibHeader.deth));

    FourChunks(PADDING, GrhBytes(grh), BthBytes(bth), DethBytes(packet.ibHeader.deth));
  }

  lemma FourChunks(a: seq<Byte>, b: seq<Byte>, c: seq<Byte>, d: seq<Byte>)
    ensures Crc(Crc(Crc(Crc(0, a), b), c), d) == Crc(0, a + (b + c + d))
  {
    hide Crc;
    Chunked(0, a, b);
    Chunked(0, a + b, c);
    Chunked(0, a + b + c, d);
    assert a + b + c + d == a + (b + c + d);
  }

  /** `stored - 24` in a `size_t`: it wraps for lengths that do not even hold the headers. */
  function SizeMinusHeaders(stored: nat): nat {
    (stored - (IB_TRANSPORT_HEADER_SIZE + CHECKSUM_SIZE)) % 0x1_0000_0000_0000_0000
  }

  function DataLength(h: IbHeaders): nat {
    SizeMinusHeaders(SwapBytes16(h.grh.payloadLength) as int)
  }

  /** A small negative number wraps in 64 bits to one whose low 32 bits read as the same negative `int`. */
  lemma WrappedSize(d: int, size: nat)
    requires 0 < d < 0x8000_0000 && size == 0x1_0000_0000_0000_0000 - d
    ensures (-d) % 0x1_0000_0000_0000_0000 == size && IntOfSize(size) == -d
  {
    assert size == 0xFFFF_FFFF * 0x1_0000_0000 + (0x1_0000_0000 - d);
  }

  /** How much payload the checksum covers for each stored length: after a wrap, none. */
  lemma CoveredPayload(stored: nat)
    requires stored < 0x1_0000
    ensures Visited(SizeMinusHeaders(stored)) == if stored < 24 then 0 else stored - 24
  {
    hide IntOfSize;
    if stored < 24 {
      WrappedSize(24 - stored, SizeMinusHeaders(stored));
    } else {
      SmallSize(stored - 24);
    }
  }

  lemma SmallSize(size: nat)
    requires size < 0x8000_0000
    ensures size % 0x1_0000_0000_0000_0000 == size && IntOfSize(size) == size
  {
  }

  /** The checksum of padding, masked headers and as much payload as the stored length says. */
  function FullChecksum(h: IbHeaders, data: seq<Byte>): bv32
    requires Visited(DataLength(h)) <= |data|
  {
    Crc(0, MaskedImage(h) + data[..Visited(DataLength(h))])
  }

  /** `ib_checksum` */
  method IbChecksum(packet: Packet) returns (crc: bv32)
    requires packet.Valid()
    requires Visited(DataLength(packet.ibHeader)) <= packet.data.Length
    ensures crc == FullChecksum(packet.ibHeader, packet.data[..])
  {
    hide Crc, MaskedImage, DataLength;
    crc := IbHeaderChecksum(packet);
    var dataLength := DataLength(packet.ibHeader);
    crc := TableCrc(crc, packet.data, 0, dataLength);
    Chunked(0, MaskedImage(packet.ibHeader), packet.data[..Visited(dataLength)]);
    assert packet.data[..][..Visited(dataLength)] == packet.data[..Visited(dataLength)];
  }

  /** Header checksums tell apart headers that differ in four neighbouring bytes, except in variant fields. */
  lemma HeaderChecksumDetects(a: IbHeaders, b: IbHeaders, k: nat)
    requires k + 4 <= IB_SIZE
    requires forall i :: 0 <= i < IB_SIZE && !(k <= i < k + 4) ==> IbBytes(a)[i] == IbBytes(b)[i]
    ensures Crc(0, MaskedImage(a)) == Crc(0, MaskedImage(b)) <==> SameInvariantFields(a, b)
  {
    hide Crc, IbBytes, MaskedImage, VariantBits;
    MaskIsBytewise(a);
    MaskIsBytewise(b);
    ImageIffInvariantFields(a, b);
    var x, y := MaskedImage(a), MaskedImage(b);
    WindowDetects(x, y, 8 + k);
  }

  lemma WindowDetects(x: seq<Byte>, y: seq<Byte>, k: nat)
    requires |x| == |y| && k + 4 <= |x|
    requires forall i :: 0 <= i < |x| && !(k <= i < k + 4) ==> x[i] == y[i]
    ensures Crc(0, x) == Crc(0, y) <==> x == y
  {
    hide Crc;
    var prefix, a, b, suffix := x[..k], x[k..k + 4], y[k..k + 4], x[k + 4..];
    assert x == prefix + a + suffix && y == prefix + b + suffix;
    if a != b { FourByteBurstDetected(0, prefix, a, b, suffix); }
  }

  // ----- header set-up -----

  /** InfiniBand packet length: payload, transport headers and checksum. */
  const IB_LENGTH: bv16 := 8964

  /** `htonl(x << 8)` stored into a 24-bit field. */
  function QpField(qp: bv32): bv24 {
    (SwapBytes32(qp << 8) & 0xFFFFFF) as bv24
  }

  function InvariantHeaders(h: IbHeaders, src: Addr, dest: Addr, qp: bv32): IbHeaders {
    IbHeaders(
      h.grh.(ipVersion := 6, nextHeader := 27, hopLimit := 1, source := src.ipv6, dest := dest.ipv6,
             payloadLength := SwapBytes16(IB_LENGTH)),
      h.bth.(opcode := 0x64, sollicitedEvent := 0, migrationRequest := 1, partitionKey := SwapBytes16(0xFFFF),
             destinationQp := QpField(qp)),
      h.deth.(queueKey := SwapBytes32(0x11111111), sourceQp := QpField(0x182)))
  }

  /** `init_invariant_headers` */
  method InitInvariantHeaders(packet: Packet, src: Addr, dest: Addr, qp: bv32) returns (crc: bv32)
    modifies packet
    ensures packet.etherHeader == EthHdr(dest.mac, src.mac, SwapBytes16(0x8915))
    ensures packet.ibHeader == InvariantHeaders(old(packet.ibHeader), src, dest, qp)
    ensures crc == Crc(0, MaskedImage(packet.ibHeader))
    ensures old(packet.ibHeader) == ZERO_HEADERS ==> crc == Crc(0, CoveredBytes(src, dest, qp))
  {
    hide Crc, MaskedImage, SwapBytes16, SwapBytes32, QpField, CoveredBytes;
    CoveredImage(src, dest, qp);
    packet.etherHeader := packet.etherHeader.(proto := SwapBytes16(0x8915));
    packet.etherHeader := packet.etherHeader.(dest := dest.mac);
    packet.etherHeader := packet.etherHeader.(source := src.mac);

    var grh := packet.ibHeader.grh.(ipVersion := 6, nextHeader := 27, hopLimit := 1);
    grh := grh.(source := src.ipv6, dest := dest.ipv6);
    grh := grh.(payloadLength := SwapBytes16(IB_LENGTH));

    var bth := packet.ibHeader.bth.(opcode := 0x64, sollicitedEvent := 0, migrationRequest := 1);
    bth := bth.(partitionKey := SwapBytes16(0xFFFF), destinationQp := QpField(qp));

    var deth := packet.ibHeader.deth.(queueKey := SwapBytes32(0x11111111), sourceQp := QpField(0x182));
    packet.ibHeader := IbHeaders(grh, bth, deth);
    crc := IbHeaderChecksum(packet);
  }

  const NO_GID: Gid := [0, 0, 0, 0, 0, 0, 0, 0, 0, 0, 0, 0, 0, 0, 0, 0]

  /** The headers of a packet in static storage. */
  const ZERO_HEADERS: IbHeaders := IbHeaders(
    Grh(0, 0, 0, 0, 0, 0, 0, NO_GID, NO_GID), Bth(0, 0, 0, 0, 0, 0, 0, 0, 0, 0, 0), Deth(0, 0, 0))

  lemma FixedWords(qp: bv32)
    ensures Le32(GrhWord(0, 6, 0, 0)) == [0x60, 0, 0, 0]
    ensures Le16(SwapBytes16(IB_LENGTH)) == [0x23, 0x04]
    ensures BthFlags(0, 0, 1, 0) == 0x40
    ensures Le16(SwapBytes16(0xFFFF)) == [0xFF, 0xFF]
    ensures Le32(PsnWord(0, 0, 0)) == [0, 0, 0, 0]
    ensures Le32(SwapBytes32(0x11111111)) == [0x11, 0x11, 0x11, 0x11]
    ensures Le32(Word8And24(0, QpField(0x182))) == [0, 0, 0x01, 0x82]
  {
  }

  lemma QpOnTheWire(qp: bv32)
    ensures Le32(Word8And24(0, QpField(qp)))
         == [0, ((qp >> 16) & 0xFF) as bv8, ((qp >> 8) & 0xFF) as bv8, (qp & 0xFF) as bv8]
  {
  }

  lemma GrhOnTheWire(src: Addr, dest: Addr, qp: bv32)
    ensures GrhBytes(InvariantHeaders(ZERO_HEADERS, src, dest, qp).grh)
         == [0x60, 0, 0, 0, 0x23, 0x04, 27, 1] + src.ipv6 + dest.ipv6
  {
    hide GrhWord, Le32, Le16, SwapBytes16, SwapBytes32, QpField;
    FixedWords(qp);
  }

  lemma GrhCovered(src: Addr, dest: Addr, qp: bv32)
    ensures GrhBytes(MaskedGrh(InvariantHeaders(ZERO_HEADERS, src, dest, qp).grh))
         == [0x6F, 0xFF, 0xFF, 0xFF, 0x23, 0x04, 27, 0xFF] + src.ipv6 + dest.ipv6
  {
    hide GrhWord, Le32, Le16, SwapBytes16, SwapBytes32, QpField;
    FixedWords(qp);
    MaskedWords(qp);
  }

  lemma MaskedWords(qp: bv32)
    ensures Le32(GrhWord(0xF, 6, 0xF, 0xFFFFF)) == [0x6F, 0xFF, 0xFF, 0xFF]
    ensures Le32(Word8And24(0xFF, QpField(qp)))
         == [0xFF, ((qp >> 16) & 0xFF) as bv8, ((qp >> 8) & 0xFF) as bv8, (qp & 0xFF) as bv8]
  {
  }

  lemma BthOnTheWire(src: Addr, dest: Addr, qp: bv32)
    ensures BthBytes(InvariantHeaders(ZERO_HEADERS, src, dest, qp).bth)
         == [0x64, 0x40, 0xFF, 0xFF, 0] + QpBytes(qp) + [0, 0, 0, 0]
  {
    hide BthFlags, Word8And24, PsnWord, Le32, Le16, SwapBytes16, SwapBytes32, QpField;
    FixedWords(qp);
    QpOnTheWire(qp);
  }

  lemma BthCovered(src: Addr, dest: Addr, qp: bv32)
    ensures BthBytes(MaskedBth(InvariantHeaders(ZERO_HEADERS, src, dest, qp).bth))
         == [0x64, 0x40, 0xFF, 0xFF, 0xFF] + QpBytes(qp) + [0, 0, 0, 0]
  {
    hide BthFlags, Word8And24, PsnWord, Le32, Le16, SwapBytes16, SwapBytes32, QpField;
    FixedWords(qp);
    MaskedWords(qp);
  }

  lemma DethOnTheWire(src: Addr, dest: Addr, qp: bv32)
    ensures DethBytes(InvariantHeaders(ZERO_HEADERS, src, dest, qp).deth)
         == [0x11, 0x11, 0x11, 0x11, 0, 0, 0x01, 0x82]
  {
    hide Word8And24, Le32, SwapBytes16, SwapBytes32, QpField;
    FixedWords(qp);
  }

  /** A queue pair number modulo 2^24 in network order. */
  function QpBytes(qp: bv32): (s: seq<Byte>)
    ensures |s| == 3
  {
    [((qp >> 16) & 0xFF) as bv8, ((qp >> 8) & 0xFF) as bv8, (qp & 0xFF) as bv8]
  }

  /**
   The 60 bytes on the wire of headers that were all zero before set-up: every multi-byte field is in network order,
   queue pair numbers are modulo 2^24.
  */
  function WireBytes(src: Addr, dest: Addr, qp: bv32): (s: seq<Byte>)
    ensures |s| == IB_SIZE
  {
    [0x60, 0, 0, 0, 0x23, 0x04, 27, 1] + src.ipv6 + dest.ipv6
    + [0x64, 0x40, 0xFF, 0xFF, 0] + QpBytes(qp) + [0, 0, 0, 0]
    + [0x11, 0x11, 0x11, 0x11, 0, 0, 0x01, 0x82]
  }

  lemma WireImage(src: Addr, dest: Addr, qp: bv32)
    ensures IbBytes(InvariantHeaders(ZERO_HEADERS, src, dest, qp)) == WireBytes(src, dest, qp)
  {
    hide GrhBytes, BthBytes, DethBytes, InvariantHeaders, QpBytes;
    GrhOnTheWire(src, dest, qp);
    BthOnTheWire(src, dest, qp);
    DethOnTheWire(src, dest, qp);
  }

  /** The 68 bytes that the header checksum of a packet covers whose headers were all zero before set-up. */
  function CoveredBytes(src: Addr, dest: Addr, qp: bv32): seq<Byte> {
    [0xFF, 0xFF, 0xFF, 0xFF, 0xFF, 0xFF, 0xFF, 0xFF]
    + [0x6F, 0xFF, 0xFF, 0xFF, 0x23, 0x04, 27, 0xFF] + src.ipv6 + dest.ipv6
    + [0x64, 0x40, 0xFF, 0xFF, 0xFF] + QpBytes(qp) + [0, 0, 0, 0]
    + [0x11, 0x11, 0x11, 0x11, 0, 0, 0x01, 0x82]
  }

  lemma CoveredImage(src: Addr, dest: Addr, qp: bv32)
    ensures MaskedImage(InvariantHeaders(ZERO_HEADERS, src, dest, qp)) == CoveredBytes(src, dest, qp)
  {
    hide GrhBytes, BthBytes, DethBytes, InvariantHeaders, QpBytes, MaskedGrh, MaskedBth;
    GrhCovered(src, dest, qp);
    BthCovered(src, dest, qp);
    DethOnTheWire(src, dest, qp);
  }

  /** The first 14 bytes on the wire: destination before source, then the type code of RoCE in network order. */
  lemma EthOnTheWire(src: Addr, dest: Addr)
    ensures EthBytes(EthHdr(dest.mac, src.mac, SwapBytes16(0x8915))) == dest.mac + src.mac + [0x89, 0x15]
  {
    assert Le16(SwapBytes16(0x8915)) == [0x89, 0x15];
  }

  /** The stored length makes `ib_checksum` cover exactly the payload. */
  lemma StoredLengthCoversPayload(h: IbHeaders, src: Addr, dest: Addr, qp: bv32)
    ensures Visited(DataLength(InvariantHeaders(h, src, dest, qp))) == MSG_SIZE
  {
    hide SwapBytes16;
    StoredLength();
    CoveredPayload(8964);
  }

  /** On a packet that was set up, the full checksum is the cached header checksum continued over the payload. */
  lemma SetUpChecksum(h: IbHeaders, src: Addr, dest: Addr, qp: bv32, data: seq<Byte>)
    requires |data| >= MSG_SIZE
    ensures var g := InvariantHeaders(h, src, dest, qp);
            Visited(DataLength(g)) <= |data|
            && FullChecksum(g, data) == Crc(Crc(0, MaskedImage(g)), data[..MSG_SIZE])
  {
    hide Crc, MaskedImage, InvariantHeaders, DataLength, Visited;
    var g := InvariantHeaders(h, src, dest, qp);
    StoredLengthCoversPayload(h, src, dest, qp);
    Chunked(0, MaskedImage(g), data[..MSG_SIZE]);
  }

  lemma StoredLength()
    ensures SwapBytes16(SwapBytes16(IB_LENGTH)) as int == MSG_SIZE + IB_TRANSPORT_HEADER_SIZE + CHECKSUM_SIZE
  {
    assert SwapBytes16(SwapBytes16(IB_LENGTH)) == 8964;
  }
}
