/** raw_ibverbs.c: the loop that prints a message into the payload, appends the checksum and sends the frame. */
module HostSendLoop {
  import opened Bytes
  import opened Lfsr
  import opened Crc32
  import opened RawPacket
  import opened RawIbverbs
  import opened FrameCheck
  import opened RawSocketIo

  // ----- the printed message -----

  function Text(count: nat): (s: seq<Byte>)
    ensures |s| == |Message(count)|
  {
    var message := Message(count);
    seq(|message|, i requires 0 <= i < |message| => message[i] as Byte)
  }

  function Codes(bytes: seq<Byte>): (s: seq<int>)
    ensures |s| == |bytes|
  {
    seq(|bytes|, i requires 0 <= i < |bytes| => bytes[i] as int)
  }

  lemma PrefixByte(i: nat)
    requires i < 9
    ensures (PREFIX[i] as Byte) as int == PREFIX[i]
  {
    if i < 4 {
      if i == 0 {} else if i == 1 {} else if i == 2 {} else {}
    } else {
      if i == 4 {} else if i == 5 {} else if i == 6 {} else if i == 7 {} else {}
    }
  }

  lemma DigitByte(d: Digit)
    ensures ((d as int + 0x30) as Byte) as int == d + 0x30
  {
    if d < 5 {
      if d == 0 {} else if d == 1 {} else if d == 2 {} else if d == 3 {} else {}
    } else {
      if d == 5 {} else if d == 6 {} else if d == 7 {} else if d == 8 {} else {}
    }
  }

  /** The bytes of a payload text are the characters of "Message: " and the decimal number of the message. */
  lemma TextTells(count: nat)
    ensures IsMessage(Codes(Text(count)), count)
  {
    var m: seq<int> := Message(count);
    MessageTells(m, count);
    hide IsMessage, Digits;
    forall i | 0 <= i < |Text(count)| ensures Codes(Text(count))[i] == m[i] {
      if i < 9 { PrefixByte(i); } else { DigitByte(Digits(count)[i - 9]); }
    }
    assert Codes(Text(count)) == m;
  }

  /** No value of a 32-bit counter makes the message too long for the payload. */
  lemma TextFits(count: nat)
    requires count < 0x8000_0000
    ensures |Text(count)| < MSG_SIZE
  {
    MessageLength(count);
  }

  // ----- the run -----

  /** The payload area after `k` messages have been printed over `start`. */
  function PayloadAfter(start: seq<Byte>, k: nat): (s: seq<Byte>)
    ensures |s| == |start|
  {
    if k == 0 then start
    else
      var before := PayloadAfter(start, k - 1);
      if |Text(k - 1)| < |start| then WithString(before, Text(k - 1), 0) else before
  }

  /** On a zeroed packet message `k` is its text and nothing else: no earlier message shows through. */
  lemma {:induction false} CleanPayload(start: seq<Byte>, k: nat)
    requires forall i :: 0 <= i < |start| ==> start[i] == 0
    requires |Text(k)| < |start|
    ensures PayloadAfter(start, k + 1) == Text(k) + seq(|start| - |Text(k)|, _ => 0)
  {
    if k > 0 {
      DigitsMonotone(k - 1, k);
      CleanPayload(start, k - 1);
    }
  }

  /** The frames of the first `k` messages. */
  function Frames(header: seq<Byte>, headerCrc: bv32, start: seq<Byte>, k: nat): (s: seq<seq<Byte>>)
    ensures |s| == k
  {
    if k == 0 then []
    else Frames(header, headerCrc, start, k - 1) + [Frame(header, headerCrc, PayloadAfter(start, k))]
  }

  lemma {:induction false} FrameAt(header: seq<Byte>, headerCrc: bv32, start: seq<Byte>, k: nat, j: nat)
    requires j < k
    ensures Frames(header, headerCrc, start, k)[j] == Frame(header, headerCrc, PayloadAfter(start, j + 1))
  {
    hide Frame, PayloadAfter;
    if j < k - 1 { FrameAt(header, headerCrc, start, k - 1, j); }
  }

  /**
   `ib_host_send_loop`. `network[j]` says whether the j-th `sendto` succeeds; the loop is interrupted after the
   last of them. The counter is a C `int`.
  */
  method IbHostSendLoop(packet: Packet, headerCrc: bv32, socket: RawSocket<Byte>, network: seq<bool>)
    returns (exit: Exit, sent: nat)
    requires packet.Valid() && |network| < 0x8000_0000
    modifies packet.data, socket
    ensures socket.frames == old(socket.frames)
                             + Frames(old(packet.HeaderBytes()), headerCrc, old(packet.data[..MSG_SIZE]), sent)
    ensures sent <= |network| && forall j :: 0 <= j < sent ==> network[j]
    ensures exit == Interrupted <==> sent == |network|
    ensures exit == SendFailed ==> sent < |network| && !network[sent]
    ensures exit == MessageTooLong ==> |Text(sent)| >= MSG_SIZE
  {
    hide Crc, Text, WithString, Le32, Frame;
    ghost var start := packet.data[..MSG_SIZE];
    ghost var header := packet.HeaderBytes();
    var count := 0;
    assert socket.frames == old(socket.frames) + Frames(header, headerCrc, start, 0);
    while count < |network|
      invariant 0 <= count <= |network|
      invariant forall j :: 0 <= j < count ==> network[j]
      invariant packet.data[..MSG_SIZE] == PayloadAfter(start, count)
      invariant packet.HeaderBytes() == header
      invariant socket.frames == old(socket.frames) + Frames(header, headerCrc, start, count)
    {
      var length := FillPacket(packet, headerCrc, Text(count));
      if length >= MSG_SIZE {
        return MessageTooLong, count;
      }
      var frame := packet.HeaderBytes() + packet.data[..];
      var result := socket.SendTo(frame, network[count]);
      if result == -1 {
        return SendFailed, count;
      }
      assert Frames(header, headerCrc, start, count + 1) == Frames(header, headerCrc, start, count) + [frame];
      count := count + 1;
    }
    return Interrupted, count;
  }

  /** One iteration up to the `sendto`: print the message, append the checksum over the whole payload area. */
  method FillPacket(packet: Packet, headerCrc: bv32, text: seq<Byte>) returns (length: nat)
    requires packet.Valid()
    modifies packet.data
    ensures length == |text|
    ensures length < MSG_SIZE ==>
              var payload := WithString(old(packet.data[..MSG_SIZE]), text, 0);
              && packet.data[..MSG_SIZE] == payload
              && packet.HeaderBytes() + packet.data[..] == Frame(packet.HeaderBytes(), headerCrc, payload)
  {
    hide Crc, WithString, Le32;
    length := Snprintf(packet.data, 0, MSG_SIZE, text, 0);
    if length >= MSG_SIZE {
      return;
    }
    ghost var payload := packet.data[..MSG_SIZE];
    var checksum := TableCrc(headerCrc, packet.data, 0, MSG_SIZE);
    StoreChecksum(packet.data, MSG_SIZE, checksum);
    assert packet.data[..] == payload + Le32(checksum);
    assert packet.data[..MSG_SIZE] == payload;
  }

  /** Whole runs: with the checksum that `init_invariant_headers` caches, no frame is ever rejected. */
  lemma EveryFrameAccepted(eth: EthHdr, h: IbHeaders, start: seq<Byte>, k: nat, j: nat)
    requires j < k
    ensures var f := Frames(EthBytes(eth) + IbBytes(h), Crc(0, MaskedImage(h)), start, k)[j];
            WellSized(f) && ReceiverAccepts(f)
  {
    hide Crc, ReceiverAccepts, IbBytes, EthBytes, MaskedImage;
    FrameAt(EthBytes(eth) + IbBytes(h), Crc(0, MaskedImage(h)), start, k, j);
    ContinuedFrameAccepted(eth, h, PayloadAfter(start, j + 1));
  }
}
