/** The two modes of raw_ibverbs from cached header checksum to the bytes on the wire. */
module RawIbverbsMain {
  import opened Bytes
  import opened Options
  import opened Lfsr
  import opened Crc32
  import opened RawPacket
  import opened RawIbverbs
  import opened FrameCheck
  import opened RawSocketIo
  import opened HostSendLoop
  import opened IbverbsKernel

  ghost predicate Zeroed(a: seq<Byte>) {
    forall i :: 0 <= i < |a| ==> a[i] == 0
  }

  /**
   The frame sent for message `j`: these headers, the printed message and nothing else as payload, and as trailer
   what `ib_checksum` computes for them. A receiver accepts it.
  */
  ghost predicate GoodFrame(frame: seq<Byte>, eth: EthHdr, h: IbHeaders, j: nat)
    requires Visited(DataLength(h)) == MSG_SIZE
  {
    && |frame| == TOTAL_HEADER_SIZE + MSG_SIZE + CHECKSUM_SIZE && |Text(j)| < MSG_SIZE
    && IsMessage(Codes(Text(j)), j)
    && frame[..TOTAL_HEADER_SIZE] == EthBytes(eth) + IbBytes(h)
    && frame[TOTAL_HEADER_SIZE..TOTAL_HEADER_SIZE + MSG_SIZE] == Text(j) + seq(MSG_SIZE - |Text(j)|, _ => 0)
    && frame[TOTAL_HEADER_SIZE + MSG_SIZE..] == Le32(FullChecksum(h, frame[TOTAL_HEADER_SIZE..]))
    && ReceiverAccepts(frame)
  }

  /** The 74 header bytes of every frame, where the InfiniBand headers are known to have been zero before set-up. */
  ghost predicate Addressed(frame: seq<Byte>, src: Addr, dest: Addr, qp: bv32, wereZero: bool) {
    && |frame| >= TOTAL_HEADER_SIZE
    && frame[..14] == dest.mac + src.mac + [0x89, 0x15]
    && (wereZero ==> frame[14..74] == WireBytes(src, dest, qp))
  }

  lemma FrameAddressed(frame: seq<Byte>, h: IbHeaders, src: Addr, dest: Addr, qp: bv32)
    requires |frame| >= TOTAL_HEADER_SIZE
    requires frame[..TOTAL_HEADER_SIZE]
          == EthBytes(EthHdr(dest.mac, src.mac, SwapBytes16(0x8915))) + IbBytes(InvariantHeaders(h, src, dest, qp))
    ensures Addressed(frame, src, dest, qp, h == ZERO_HEADERS)
  {
    hide EthBytes, IbBytes, InvariantHeaders, WireBytes, SwapBytes16;
    EthOnTheWire(src, dest);
    WireImage(src, dest, qp);
    var header := frame[..TOTAL_HEADER_SIZE];
    assert frame[..14] == header[..14] && frame[14..74] == header[14..74];
  }

  lemma FrameParts(header: seq<Byte>, headerCrc: bv32, payload: seq<Byte>)
    ensures var f, n := Frame(header, headerCrc, payload), |header| + |payload|;
            f[..|header|] == header && f[|header|..n] == payload && f[n..] == Le32(Crc(headerCrc, payload))
            && f[|header|..][..|payload|] == payload
  {
    hide Crc, Le32;
  }

  lemma FramesAreGood(eth: EthHdr, h0: IbHeaders, src: Addr, dest: Addr, qp: bv32, start: seq<Byte>, k: nat, j: nat)
    requires |start| == MSG_SIZE && Zeroed(start) && j < k < 0x8000_0000
    ensures var h := InvariantHeaders(h0, src, dest, qp);
            Visited(DataLength(h)) == MSG_SIZE
            && GoodFrame(Frames(EthBytes(eth) + IbBytes(h), Crc(0, MaskedImage(h)), start, k)[j], eth, h, j)
  {
    hide Crc, IbBytes, EthBytes, MaskedImage, ReceiverAccepts, PayloadAfter, Text, Le32, Frame, InvariantHeaders;
    hide FullChecksum, Visited, DataLength, IsMessage, Codes;
    var h := InvariantHeaders(h0, src, dest, qp);
    var header, crc, payload := EthBytes(eth) + IbBytes(h), Crc(0, MaskedImage(h)), PayloadAfter(start, j + 1);
    FrameAt(header, crc, start, k, j);
    EveryFrameAccepted(eth, h, start, k, j);
    TextFits(j);
    TextTells(j);
    CleanPayload(start, j);
    FrameParts(header, crc, payload);
    StoredLengthCoversPayload(h0, src, dest, qp);
    SetUpChecksum(h0, src, dest, qp, Frame(header, crc, payload)[TOTAL_HEADER_SIZE..]);
  }

  lemma HeaderOf(frame: seq<Byte>, eth: EthHdr, h: IbHeaders, j: nat)
    requires Visited(DataLength(h)) == MSG_SIZE && GoodFrame(frame, eth, h, j)
    ensures |frame| >= TOTAL_HEADER_SIZE && frame[..TOTAL_HEADER_SIZE] == EthBytes(eth) + IbBytes(h)
  {
  }

  /** Host mode: set up the headers once, then send until a signal or an error. */
  method RunHost(packet: Packet, src: Addr, dest: Addr, qp: bv32, socket: RawSocket<Byte>, network: seq<bool>)
    returns (exit: Exit, sent: nat)
    requires packet.Valid() && Zeroed(packet.data[..]) && socket.frames == [] && |network| < 0x8000_0000
    modifies packet, packet.data, socket
    ensures |socket.frames| == sent <= |network|
    ensures packet.etherHeader == EthHdr(dest.mac, src.mac, SwapBytes16(0x8915))
    ensures packet.ibHeader == InvariantHeaders(old(packet.ibHeader), src, dest, qp)
    ensures Visited(DataLength(packet.ibHeader)) == MSG_SIZE
    ensures forall j :: 0 <= j < sent ==>
              network[j] && GoodFrame(socket.frames[j], packet.etherHeader, packet.ibHeader, j)
    ensures forall j :: 0 <= j < sent ==>
              Addressed(socket.frames[j], src, dest, qp, old(packet.ibHeader) == ZERO_HEADERS)
    ensures exit == if sent == |network| then Interrupted else SendFailed
  {
    hide Crc, MaskedImage, GoodFrame, Addressed, InvariantHeaders, Frames, Text, Visited, DataLength;
    StoredLengthCoversPayload(packet.ibHeader, src, dest, qp);
    var crc := InitInvariantHeaders(packet, src, dest, qp);
    ghost var header, start := packet.HeaderBytes(), packet.data[..MSG_SIZE];
    assert Zeroed(start) by { assert forall i :: 0 <= i < MSG_SIZE ==> start[i] == packet.data[..][i]; }
    exit, sent := IbHostSendLoop(packet, crc, socket, network);
    TextFits(sent);
    forall j | 0 <= j < sent
      ensures GoodFrame(socket.frames[j], packet.etherHeader, packet.ibHeader, j)
      ensures Addressed(socket.frames[j], src, dest, qp, old(packet.ibHeader) == ZERO_HEADERS)
    {
      FramesAreGood(packet.etherHeader, old(packet.ibHeader), src, dest, qp, start, sent, j);
      HeaderOf(socket.frames[j], packet.etherHeader, packet.ibHeader, j);
      FrameAddressed(socket.frames[j], old(packet.ibHeader), src, dest, qp);
    }
  }

  /** The 74 header bytes fit the kernel's buffer: its last line ends six bytes after the frame. */
  lemma KernelBufferSuffices()
    ensures TOTAL_HEADER_SIZE + Empty(TOTAL_HEADER_SIZE + MSG_SIZE + 4) <= 96
    ensures Empty(TOTAL_HEADER_SIZE + MSG_SIZE + 4) == 6
  {
  }

  lemma KernelFrameGood(h0: IbHeaders, src: Addr, dest: Addr, qp: bv32, payload: seq<Byte>)
    requires |payload| == MSG_SIZE
    ensures var eth, h := EthHdr(dest.mac, src.mac, SwapBytes16(0x8915)), InvariantHeaders(h0, src, dest, qp);
            var frame := Frame(EthBytes(eth) + IbBytes(h), Crc(0, MaskedImage(h)), payload);
            && ReceiverAccepts(frame) && Addressed(frame, src, dest, qp, h0 == ZERO_HEADERS)
            && frame[..TOTAL_HEADER_SIZE] == EthBytes(eth) + IbBytes(h)
            && frame[TOTAL_HEADER_SIZE..TOTAL_HEADER_SIZE + MSG_SIZE] == payload
  {
    hide Crc, MaskedImage, InvariantHeaders, ReceiverAccepts, IbBytes, EthBytes, Addressed, Frame, SwapBytes16;
    var eth, h := EthHdr(dest.mac, src.mac, SwapBytes16(0x8915)), InvariantHeaders(h0, src, dest, qp);
    var header, crc := EthBytes(eth) + IbBytes(h), Crc(0, MaskedImage(h));
    FrameParts(header, crc, payload);
    FrameAddressed(Frame(header, crc, payload), h0, src, dest, qp);
    ContinuedFrameAccepted(eth, h, payload);
  }

  /** What the kernel leaves in its buffer and emits, if its header is of the size of ours. */
  lemma KernelLinesGood(header: seq<Byte>, crc: bv32, local: seq<Byte>, data: seq<Byte>, lines: seq<Line>)
    requires |header| == TOTAL_HEADER_SIZE && |local| == MSG_SIZE + 100
    requires data == KernelFrame(header, crc, local) + local[TOTAL_HEADER_SIZE + MSG_SIZE + 4..]
    requires var size := TOTAL_HEADER_SIZE + MSG_SIZE + 4;
             32 * LineCount(size) <= |data| && lines == Lines(data, size, LineCount(size))
    ensures var frame := Frame(header, crc, local[TOTAL_HEADER_SIZE..TOTAL_HEADER_SIZE + MSG_SIZE]);
            && Decode(None, lines) == Some([frame]) && |frame| <= |data| && data[..|frame|] == frame
            && AreLines(lines, data, |frame|)
  {
    hide Decode, Lines, Empty, AreLines, Frame;
    KernelBufferSuffices();
    var payload := local[TOTAL_HEADER_SIZE..TOTAL_HEADER_SIZE + MSG_SIZE];
    var tail := local[TOTAL_HEADER_SIZE + MSG_SIZE + 4..];
    LinesAreLines(data, TOTAL_HEADER_SIZE + MSG_SIZE + 4);
    KernelSendsTheHostFrame(header, crc, payload, tail);
  }

  /**
   FPGA mode: the host hands the header bytes and the cached checksum to the kernel. Whatever the kernel's local
   buffer held, its lines decode to one frame that every receiver accepts.
  */
  method RunFpga(packet: Packet, src: Addr, dest: Addr, qp: bv32, data: array<Byte>, channel: Channel)
    returns (ghost frame: seq<Byte>)
    requires packet.Valid() && data.Length == MSG_SIZE + 100 && channel.lines == []
    modifies packet, data, channel
    ensures packet.etherHeader == EthHdr(dest.mac, src.mac, SwapBytes16(0x8915))
    ensures packet.ibHeader == InvariantHeaders(old(packet.ibHeader), src, dest, qp)
    ensures Decode(None, channel.lines) == Some([frame])
    ensures |frame| == TOTAL_HEADER_SIZE + MSG_SIZE + CHECKSUM_SIZE && ReceiverAccepts(frame)
    ensures data[..|frame|] == frame && AreLines(channel.lines, data[..], |frame|)
    ensures frame[..TOTAL_HEADER_SIZE] == packet.HeaderBytes()
    ensures Addressed(frame, src, dest, qp, old(packet.ibHeader) == ZERO_HEADERS)
    ensures frame[TOTAL_HEADER_SIZE..TOTAL_HEADER_SIZE + MSG_SIZE]
         == old(data[TOTAL_HEADER_SIZE..TOTAL_HEADER_SIZE + MSG_SIZE])
  {
    hide Crc, MaskedImage, InvariantHeaders, Le32, Decode, Lines, Empty, ReceiverAccepts, IbBytes, EthBytes;
    hide Addressed, AreLines, Frame, SwapBytes16;
    var crc := InitInvariantHeaders(packet, src, dest, qp);
    var header := AsBytes(packet.HeaderBytes());
    KernelBufferSuffices();
    ghost var local := data[..];
    WriteIbverbPacket(header, crc, TOTAL_HEADER_SIZE, data, channel);
    assert header[..TOTAL_HEADER_SIZE] == packet.HeaderBytes();
    ghost var payload := local[TOTAL_HEADER_SIZE..TOTAL_HEADER_SIZE + MSG_SIZE];
    frame := Frame(packet.HeaderBytes(), crc, payload);
    KernelLinesGood(packet.HeaderBytes(), crc, local, data[..], channel.lines);
    KernelFrameGood(old(packet.ibHeader), src, dest, qp, payload);
  }
}
