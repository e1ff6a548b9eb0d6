/**
 ibverbs.cl: the kernel copies the headers, appends the continued checksum and cuts the packet into 32-byte lines
 with first/last flags and an empty-byte count. The line format is proved to be a parseable stream encoding.
*/
module IbverbsKernel {
  import opened Buffers
  import opened Bytes
  import opened Options
  import opened Lfsr
  import opened Crc32
  import opened RawPacket
  import opened RawIbverbs
  import opened FrameCheck

  const FLAG_FIRST: bv8 := 1
  const FLAG_LAST: bv8 := 2

  datatype Line = Line(payload: seq<Byte>, flags: bv8)

  // ----- framing -----

  /** `-size % 32U` in 32-bit unsigned arithmetic */
  function Empty(size: nat): (e: nat)
    requires size < 0x1_0000_0000
    ensures e < 32 && (size + e) % 32 == 0
  {
    var minus := if size == 0 then 0 else 0x1_0000_0000 - size;
    MinusModulo(size);
    minus % 32
  }

  lemma MinusModulo(size: nat)
    requires 0 < size < 0x1_0000_0000 || size == 0
    ensures size > 0 ==> (0x1_0000_0000 - size) % 32 == if size % 32 == 0 then 0 else 32 - size % 32
    ensures (size + (if size % 32 == 0 then 0 else 32 - size % 32)) % 32 == 0
  {
    var q, r := size / 32, size % 32;
    assert size == 32 * q + r;
    assert 0x1_0000_0000 - size == 32 * (0x800_0000 - q) - r;
  }

  function LineCount(size: nat): nat {
    (size + 31) / 32
  }

  function FlagByte(first: bool, last: bool, empty: nat): bv8
    requires empty < 32
  {
    (if first then FLAG_FIRST else 0) | (if last then FLAG_LAST | ((empty as bv8) << 3) else 0)
  }

  function LineAt(image: seq<Byte>, size: nat, i: nat): Line
    requires 0 < size < 0x1_0000_0000
    requires i < LineCount(size) && 32 * LineCount(size) <= |image|
  {
    Line(image[32 * i..32 * i + 32], FlagByte(i == 0, i == (size - 1) / 32, Empty(size)))
  }

  /** The first `n` lines of a packet of `size` bytes at the start of `image`; the rest of `image` is padding. */
  function Lines(image: seq<Byte>, size: nat, n: nat): (s: seq<Line>)
    requires 0 < size < 0x1_0000_0000
    requires n <= LineCount(size) && 32 * LineCount(size) <= |image|
    ensures |s| == n
    ensures forall i :: 0 <= i < n ==> s[i] == LineAt(image, size, i)
  {
    seq(n, i requires 0 <= i < n => LineAt(image, size, i))
  }

  /**
   With a header of `h` bytes and `m` payload bytes, no line is read past the end of the `m + 100` byte buffer
   exactly if header and padding together take at most 96 bytes.
  */
  lemma LinesStayInside(h: nat, m: nat)
    requires h + m + 4 < 0x1_0000_0000
    ensures 32 * LineCount(h + m + 4) <= m + 100 <==> h + Empty(h + m + 4) <= 96
  {
    var size := h + m + 4;
    assert 32 * LineCount(size) == size + Empty(size);
  }

  class Channel {
    var lines: seq<Line>

    constructor ()
      ensures lines == []
    {
      lines := [];
    }

    method Write(line: Line)
      modifies this
      ensures lines == old(lines) + [line]
    {
      lines := lines + [line];
    }
  }

  /** The packet the kernel builds in a buffer that held `local` before. */
  function KernelFrame(header: seq<Byte>, headerCrc: bv32, local: seq<Byte>): seq<Byte>
    requires |header| + MSG_SIZE <= |local|
  {
    Frame(header, headerCrc, local[|header|..|header| + MSG_SIZE])
  }

  /**
   `write_ibverb_packet`. `data` is the kernel's local buffer: nothing initialises its payload region, so its
   contents on entry are arbitrary and become the payload.
  */
  method WriteIbverbPacket(header: array<Byte>, headerCrc: bv32, headerSize: nat, data: array<Byte>, channel: Channel)
    requires header != data && data.Length == MSG_SIZE + 100
    requires headerSize <= header.Length && headerSize + MSG_SIZE + 4 < 0x1_0000_0000
    requires headerSize + Empty(headerSize + MSG_SIZE + 4) <= 96
    modifies data, channel
    ensures data[..] == KernelFrame(header[..headerSize], headerCrc, old(data[..]))
                        + old(data[headerSize + MSG_SIZE + 4..])
    ensures var size := headerSize + MSG_SIZE + 4;
            32 * LineCount(size) <= data.Length
            && channel.lines == old(channel.lines) + Lines(data[..], size, LineCount(size))
  {
    hide Crc, Le32, FlagByte, Empty, Patch, Lines, KernelFrame, LineCount, Visited;
    var size := headerSize + MSG_SIZE + 4;
    LinesStayInside(headerSize, MSG_SIZE);
    VisitsWholeBuffer(MSG_SIZE);
    CopyHeader(header, headerSize, data);
    var foo := TableCrc(headerCrc, data, headerSize, MSG_SIZE);
    StoreChecksum(data, headerSize + MSG_SIZE, foo);
    PatchedFrame(header[..headerSize], headerCrc, old(data[..]));
    assert old(data[headerSize + MSG_SIZE + 4..]) == old(data[..])[headerSize + MSG_SIZE + 4..];
    EmitLines(data, size, channel);
  }

  /** Header copy and checksum store together leave the frame and, behind it, what the buffer held. */
  lemma PatchedFrame(header: seq<Byte>, headerCrc: bv32, local: seq<Byte>)
    requires |header| + MSG_SIZE + 4 <= |local|
    ensures var copied := Patch(local, 0, header);
            var crc := Crc(headerCrc, copied[|header|..|header| + MSG_SIZE]);
            Patch(copied, |header| + MSG_SIZE, Le32(crc))
            == KernelFrame(header, headerCrc, local) + local[|header| + MSG_SIZE + 4..]
  {
    hide Crc, Le32;
    PatchedImage(local, header, MSG_SIZE);
    PatchedTrailer(local, header, MSG_SIZE, Le32(Crc(headerCrc, local[|header|..|header| + MSG_SIZE])));
  }

  lemma PatchedImage(local: seq<Byte>, header: seq<Byte>, m: nat)
    requires |header| + m <= |local|
    ensures Patch(local, 0, header)[|header|..|header| + m] == local[|header|..|header| + m]
  {
  }

  lemma PatchedTrailer(local: seq<Byte>, header: seq<Byte>, m: nat, trailer: seq<Byte>)
    requires |header| + m + |trailer| <= |local|
    ensures Patch(Patch(local, 0, header), |header| + m, trailer)
         == header + local[|header|..|header| + m] + trailer + local[|header| + m + |trailer|..]
  {
  }

  /** The loop that copies the headers out of global memory. */
  method CopyHeader(header: array<Byte>, headerSize: nat, data: array<Byte>)
    requires header != data && headerSize <= header.Length && headerSize <= data.Length
    modifies data
    ensures data[..] == Patch(old(data[..]), 0, header[..headerSize])
  {
    for i := 0 to headerSize
      invariant forall j :: 0 <= j < i ==> data[j] == header[j]
      invariant forall j :: i <= j < data.Length ==> data[j] == old(data[j])
    {
      data[i] := header[i];
    }
  }

  /**
   Bytes, flag bits and count of line `i`: bit 0 marks the first line, bit 1 the last, bits 3 to 7 count the padding
   bytes of the last.
  */
  ghost predicate IsLine(line: Line, image: seq<Byte>, size: nat, i: nat) {
    && 0 < size && 32 * i + 32 <= |image| && line.payload == image[32 * i..32 * i + 32]
    && (line.flags & 1 != 0 <==> i == 0) && (line.flags & 2 != 0 <==> 32 * i + 32 >= size) && line.flags & 4 == 0
    && (line.flags >> 3) as int == if 32 * i + 32 >= size then 32 * i + 32 - size else 0
  }

  ghost predicate AreLines(lines: seq<Line>, image: seq<Byte>, size: nat) {
    |lines| == LineCount(size) && forall i :: 0 <= i < |lines| ==> IsLine(lines[i], image, size, i)
  }

  lemma LinesAreLines(image: seq<Byte>, size: nat)
    requires 0 < size < 0x1_0000_0000 && 32 * LineCount(size) <= |image|
    ensures AreLines(Lines(image, size, LineCount(size)), image, size)
  {
    hide FlagByte, Empty;
    LineGeometry(size);
    forall i | 0 <= i < LineCount(size) ensures IsLine(Lines(image, size, LineCount(size))[i], image, size, i) {
      FlagFields(i == 0, i == (size - 1) / 32, Empty(size));
    }
  }

  /** The loop over lines; a line is 32 bytes read through a vector pointer into the buffer. */
  method EmitLines(data: array<Byte>, size: nat, channel: Channel)
    requires 0 < size < 0x1_0000_0000 && 32 * LineCount(size) <= data.Length
    modifies channel
    ensures channel.lines == old(channel.lines) + Lines(data[..], size, LineCount(size))
    ensures AreLines(channel.lines[|old(channel.lines)|..], data[..], size)
  {
    hide FlagByte, Empty, AreLines;
    LinesAreLines(data[..], size);
    var i := 0;
    while 32 * i < size
      invariant i <= LineCount(size)
      invariant channel.lines == old(channel.lines) + Lines(data[..], size, i)
    {
      var payload := data[32 * i..32 * i + 32];
      var line := Line(payload, FlagByte(i == 0, i == (size - 1) / 32, Empty(size)));
      assert payload == data[..][32 * i..32 * i + 32];
      assert Lines(data[..], size, i + 1) == Lines(data[..], size, i) + [line];
      channel.Write(line);
      i := i + 1;
    }
    assert channel.lines[|old(channel.lines)|..] == Lines(data[..], size, LineCount(size));
  }

  // ----- parsing the stream -----

  /** The bytes of the packet being received; between packets there is none. */
  type Partial = Option<seq<Byte>>

  function EmptyCount(flags: bv8): (e: nat)
    ensures e < 32
  {
    (flags >> 3) as nat
  }

  predicate First(flags: bv8) {
    flags & FLAG_FIRST != 0
  }

  predicate Last(flags: bv8) {
    flags & FLAG_LAST != 0
  }

  /** Bit 2 belongs to no flag and to no count. */
  predicate Stray(flags: bv8) {
    flags & 4 != 0
  }

  /** What a receiver does with one line: the new partial packet and the packet completed, if any. */
  function Accept(partial: Partial, line: Line): Option<(Partial, Option<seq<Byte>>)> {
    if |line.payload| != 32 || Stray(line.flags) || First(line.flags) != partial.None? then None
    else
      var bytes := (if partial.None? then [] else partial.value) + line.payload;
      if Last(line.flags) then Some((None, Some(bytes[..|bytes| - EmptyCount(line.flags)])))
      else if EmptyCount(line.flags) != 0 then None
      else Some((Some(bytes), None))
  }

  /** The packets in a stream of lines, or nothing if the stream is malformed or stops within a packet. */
  function Decode(partial: Partial, lines: seq<Line>): Option<seq<seq<Byte>>>
    decreases |lines|
  {
    if lines == [] then (if partial.None? then Some([]) else None)
    else
      var step := Accept(partial, lines[0]);
      if step.None? then None
      else
        var rest := Decode(step.value.0, lines[1..]);
        if rest.None? then None
        else Some((if step.value.1.Some? then [step.value.1.value] else []) + rest.value)
  }

  /** A packet with the padding that happened to follow it in memory. */
  datatype Padded = Padded(packet: seq<Byte>, pad: seq<Byte>) {
    ghost predicate Valid() {
      0 < |packet| < 0x1_0000_0000 && |pad| == Empty(|packet|)
    }

    function Encode(): seq<Line>
      requires Valid()
    {
      Lines(packet + pad, |packet|, LineCount(|packet|))
    }
  }

  ghost predicate AllValid(s: seq<Padded>) {
    forall i :: 0 <= i < |s| ==> s[i].Valid()
  }

  function Packets(s: seq<Padded>): seq<seq<Byte>> {
    if s == [] then [] else [s[0].packet] + Packets(s[1..])
  }

  function EncodeAll(s: seq<Padded>): seq<Line>
    requires AllValid(s)
  {
    if s == [] then [] else s[0].Encode() + EncodeAll(s[1..])
  }

  lemma RawFields(first: bool, last: bool, e: bv8)
    requires e < 32
    ensures var f: bv8 := (if first then 1 else 0) | (if last then 2 | (e << 3) else 0);
            (f & 1 != 0) == first && (f & 2 != 0) == last && f & 4 == 0 && f >> 3 == if last then e else 0
  {
    if first {
      if last {} else {}
    } else {
      if last {} else {}
    }
  }

  /** The flag byte never overflows: first flag in bit 0, last flag in bit 1, empty count from bit 3 on. */
  lemma FlagFields(first: bool, last: bool, empty: nat)
    requires empty < 32
    ensures var f := FlagByte(first, last, empty);
            (f & 1 != 0) == first && (f & 2 != 0) == last && f & 4 == 0
            && (f >> 3) as nat == if last then empty else 0
    ensures var f := FlagByte(first, last, empty);
            First(f) == first && Last(f) == last && !Stray(f)
            && EmptyCount(f) == if last then empty else 0
  {
    RawFields(first, last, empty as bv8);
  }

  /** A flag byte with bit 2 clear and no count outside last lines is one the kernel can produce. */
  lemma FlagsOf(f: bv8)
    requires !Stray(f) && (!Last(f) ==> EmptyCount(f) == 0)
    ensures f == FlagByte(First(f), Last(f), EmptyCount(f))
  {
    assert f >> 3 == EmptyCount(f) as bv8;
    RawFlags(f);
  }

  lemma RawFlags(f: bv8)
    requires f & 4 == 0
    ensures f & 2 != 0 && f & 1 != 0 ==> f == 1 | (2 | ((f >> 3) << 3))
    ensures f & 2 != 0 && f & 1 == 0 ==> f == 0 | (2 | ((f >> 3) << 3))
    ensures f & 2 == 0 && f >> 3 == 0 ==> f == f & 1
  {
  }

  // ----- main results -----

  lemma LineGeometry(size: nat)
    requires 0 < size < 0x1_0000_0000
    ensures size + Empty(size) == 32 * LineCount(size)
    ensures (size - 1) / 32 == LineCount(size) - 1
  {
  }

  function PartialAfter(image: seq<Byte>, i: nat): Partial
    requires 32 * i <= |image|
  {
    if i == 0 then None else Some(image[..32 * i])
  }

  /** One encoded line moves the receiver to the next prefix of the packet, the last one completes it. */
  lemma AcceptEncoded(p: Padded, i: nat)
    requires p.Valid() && i < LineCount(|p.packet|)
    requires |p.packet| + |p.pad| == 32 * LineCount(|p.packet|)
    ensures var image, n := p.packet + p.pad, LineCount(|p.packet|);
            Accept(PartialAfter(image, i), p.Encode()[i])
            == if i == n - 1 then Some((None, Some(p.packet))) else Some((PartialAfter(image, i + 1), None))
  {
    hide FlagByte, EmptyCount, Empty;
    var image, size := p.packet + p.pad, |p.packet|;
    LineGeometry(size);
    FlagFields(i == 0, i == (size - 1) / 32, Empty(size));
    assert image[..32 * i] + image[32 * i..32 * i + 32] == image[..32 * (i + 1)];
    assert i == 0 ==> image[32 * i..32 * i + 32] == image[..32];
    if i == LineCount(size) - 1 {
      assert image[..32 * (i + 1)] == image;
      assert image[..|image| - Empty(size)] == p.packet;
    }
  }

  lemma {:induction false} DecodeRest(p: Padded, i: nat, rest: seq<Line>)
    requires p.Valid() && i < LineCount(|p.packet|)
    requires |p.packet| + |p.pad| == 32 * LineCount(|p.packet|)
    ensures Decode(PartialAfter(p.packet + p.pad, i), p.Encode()[i..] + rest)
         == var r := Decode(None, rest); if r.None? then None else Some([p.packet] + r.value)
    decreases LineCount(|p.packet|) - i
  {
    hide Accept, Lines, LineAt, Empty;
    AcceptEncoded(p, i);
    var lines := p.Encode()[i..] + rest;
    assert lines[0] == p.Encode()[i];
    var step := Accept(PartialAfter(p.packet + p.pad, i), lines[0]);
    if i == LineCount(|p.packet|) - 1 {
      assert lines[1..] == rest;
    } else {
      assert lines[1..] == p.Encode()[i + 1..] + rest;
      DecodeRest(p, i + 1, rest);
      var r := Decode(step.value.0, lines[1..]);
      assert r.Some? ==> [] + r.value == r.value;
    }
  }

  /** Decoding what was framed returns the packets, in order, whatever padding the lines carried. */
  lemma {:induction false} RoundTrip(s: seq<Padded>)
    requires AllValid(s)
    ensures Decode(None, EncodeAll(s)) == Some(Packets(s))
  {
    hide Decode, Lines;
    if s == [] {
      assert Decode(None, []) == Some([]) by { DecodeNothing(); }
    } else {
      RoundTrip(s[1..]);
      LineGeometry(|s[0].packet|);
      DecodeRest(s[0], 0, EncodeAll(s[1..]));
      assert s[0].Encode()[0..] == s[0].Encode();
    }
  }

  lemma DecodeNothing()
    ensures Decode(None, []) == Some([])
  {
  }

  /** The lines already taken in when a packet is under way. */
  function Opening(bytes: seq<Byte>): (s: seq<Line>)
    ensures |s| == |bytes| / 32
  {
    seq(|bytes| / 32, i requires 0 <= i < |bytes| / 32 =>
      Line(bytes[32 * i..32 * i + 32], if i == 0 then FLAG_FIRST else 0))
  }

  function Started(partial: Partial): seq<Byte> {
    if partial.None? then [] else partial.value
  }

  lemma OpeningGrows(bytes: seq<Byte>, line: Line)
    requires |bytes| % 32 == 0 && |line.payload| == 32
    requires line.flags == if bytes == [] then FLAG_FIRST else 0
    ensures Opening(bytes + line.payload) == Opening(bytes) + [line]
  {
    var n := |bytes| / 32;
    forall i | 0 <= i < n ensures Opening(bytes + line.payload)[i] == Opening(bytes)[i] {
      assert (bytes + line.payload)[32 * i..32 * i + 32] == bytes[32 * i..32 * i + 32];
    }
    assert (bytes + line.payload)[32 * n..32 * n + 32] == line.payload;
  }

  /** The lines of a packet whose full lines are `bytes` and whose last line is `line`. */
  lemma ClosedLines(bytes: seq<Byte>, line: Line, size: nat)
    requires |bytes| % 32 == 0 && |line.payload| == 32
    requires 0 < size < 0x1_0000_0000 && LineCount(size) == |bytes| / 32 + 1
    requires line.flags == FlagByte(bytes == [], true, Empty(size))
    ensures Lines(bytes + line.payload, size, LineCount(size)) == Opening(bytes) + [line]
  {
    hide FlagByte, EmptyCount, Empty;
    var all, n := bytes + line.payload, |bytes| / 32;
    NotLastFlags(Empty(size));
    forall i | 0 <= i < n ensures LineAt(all, size, i) == Opening(bytes)[i] {
      assert all[32 * i..32 * i + 32] == bytes[32 * i..32 * i + 32];
    }
    assert all[32 * n..32 * n + 32] == line.payload;
    assert LineAt(all, size, n) == line;
  }

  /** A last line closes a packet whose encoding is the lines taken in so far. */
  lemma Closing(bytes: seq<Byte>, line: Line) returns (p: Padded)
    requires |bytes| % 32 == 0 && |line.payload| == 32
    requires |bytes| + 32 - EmptyCount(line.flags) < 0x1_0000_0000
    requires !Stray(line.flags) && Last(line.flags)
    requires First(line.flags) == (bytes == [])
    ensures p.Valid() && p.Encode() == Opening(bytes) + [line]
    ensures p.packet == (bytes + line.payload)[..|bytes| + 32 - EmptyCount(line.flags)]
  {
    hide FlagByte, EmptyCount, Opening, Lines, Stray, Last, First;
    var all, e := bytes + line.payload, EmptyCount(line.flags);
    p := Padded(all[..|all| - e], all[|all| - e..]);
    assert p.packet + p.pad == all;
    EmptyIs(|p.packet|, e, |bytes| / 32 + 1);
    FlagsOf(line.flags);
    ClosedLines(bytes, line, |p.packet|);
  }

  lemma EmptyIs(size: nat, e: nat, lines: nat)
    requires size + e == 32 * lines && e < 32 && 0 < size < 0x1_0000_0000
    ensures Empty(size) == e && LineCount(size) == lines
  {
    LineGeometry(size);
  }

  lemma NotLastFlags(e: nat)
    requires e < 32
    ensures FlagByte(true, false, e) == FLAG_FIRST && FlagByte(false, false, e) == 0
  {
  }

  /** What a line must look like to be accepted, and what accepting it does. */
  lemma AcceptShape(partial: Partial, line: Line)
    requires Accept(partial, line).Some?
    ensures |line.payload| == 32 && !Stray(line.flags) && First(line.flags) == partial.None?
    ensures var bytes := Started(partial) + line.payload;
            if Last(line.flags)
            then Accept(partial, line).value == (None, Some(bytes[..|bytes| - EmptyCount(line.flags)]))
            else EmptyCount(line.flags) == 0 && Accept(partial, line).value == (Some(bytes), None)
  {
    hide EmptyCount;
  }

  lemma EncodeOneMore(p: Padded, rest: seq<Padded>)
    requires p.Valid() && AllValid(rest)
    ensures AllValid([p] + rest)
    ensures EncodeAll([p] + rest) == p.Encode() + EncodeAll(rest)
    ensures Packets([p] + rest) == [p.packet] + Packets(rest)
  {
    assert ([p] + rest)[1..] == rest;
  }

  lemma DecodeLast(partial: Partial, lines: seq<Line>)
    requires lines != [] && Decode(partial, lines).Some? && Last(lines[0].flags)
    ensures var bytes := Started(partial) + lines[0].payload;
            |lines[0].payload| == 32 && Decode(None, lines[1..]).Some?
            && Decode(partial, lines).value
               == [bytes[..|bytes| - EmptyCount(lines[0].flags)]] + Decode(None, lines[1..]).value
  {
    hide EmptyCount, Accept, First, Last, Stray;
    AcceptShape(partial, lines[0]);
  }

  lemma DecodeMore(partial: Partial, lines: seq<Line>)
    requires lines != [] && Decode(partial, lines).Some? && !Last(lines[0].flags)
    ensures |lines[0].payload| == 32
    ensures Decode(partial, lines) == Decode(Some(Started(partial) + lines[0].payload), lines[1..])
  {
    hide EmptyCount, Accept, First, Last, Stray;
    AcceptShape(partial, lines[0]);
    var r := Decode(Some(Started(partial) + lines[0].payload), lines[1..]);
    assert r.Some? ==> [] + r.value == r.value;
  }

  lemma DecodeAccepts(partial: Partial, lines: seq<Line>)
    requires lines != [] && Decode(partial, lines).Some?
    ensures Accept(partial, lines[0]).Some?
  {
  }

  /** Packets whose size fits the kernel's 32-bit arithmetic. */
  ghost predicate Fit(packets: seq<seq<Byte>>) {
    forall i :: 0 <= i < |packets| ==> |packets[i]| < 0x1_0000_0000
  }

  lemma FitParts(packet: seq<Byte>, rest: seq<seq<Byte>>)
    requires Fit([packet] + rest)
    ensures |packet| < 0x1_0000_0000 && Fit(rest)
  {
    var all := [packet] + rest;
    assert all[0] == packet;
    forall i | 0 <= i < |rest| ensures |rest[i]| < 0x1_0000_0000 {
      assert all[i + 1] == rest[i];
    }
  }

  /** Every stream that decodes to packets of fitting size is the encoding of these packets. */
  lemma {:induction false} Unframe(partial: Partial, lines: seq<Line>) returns (s: seq<Padded>)
    requires Decode(partial, lines).Some? && Fit(Decode(partial, lines).value)
    requires |Started(partial)| % 32 == 0 && (partial.Some? ==> |partial.value| > 0)
    ensures AllValid(s) && Packets(s) == Decode(partial, lines).value
    ensures EncodeAll(s) == Opening(Started(partial)) + lines
    decreases |lines|
  {
    hide EmptyCount, Empty, Opening, Accept, Lines, First, Last, Stray, EncodeAll, Packets, AllValid, Decode;
    hide LineAt, FlagByte, Fit;
    OpeningOfNothing();
    NothingToDecode();
    if lines == [] {
      s := [];
    } else {
      var line, bytes := lines[0], Started(partial);
      DecodeAccepts(partial, lines);
      AcceptShape(partial, line);
      if Last(line.flags) {
        DecodeLast(partial, lines);
        var all := bytes + line.payload;
        FitParts(all[..|all| - EmptyCount(line.flags)], Decode(None, lines[1..]).value);
        var p := Closing(bytes, line);
        var rest := Unframe(None, lines[1..]);
        EncodeOneMore(p, rest);
        s := [p] + rest;
      } else {
        DecodeMore(partial, lines);
        OpenLine(partial.None?, line.flags);
        OpeningGrows(bytes, line);
        s := Unframe(Some(bytes + line.payload), lines[1..]);
      }
      assert Opening(bytes) + lines == (Opening(bytes) + [line]) + lines[1..];
    }
  }

  lemma NothingToDecode()
    ensures AllValid([]) && Packets([]) == [] && EncodeAll([]) == []
    ensures Decode(None, []) == Some([]) && forall b :: Decode(Some(b), []) == None
  {
  }

  lemma OpenLine(first: bool, f: bv8)
    requires !Stray(f) && !Last(f) && EmptyCount(f) == 0 && First(f) == first
    ensures f == if first then FLAG_FIRST else 0
  {
    hide EmptyCount;
    FlagsOf(f);
    NotLastFlags(0);
  }

  lemma OpeningOfNothing()
    ensures Opening([]) == []
  {
  }

  lemma {:induction false} ValidFit(s: seq<Padded>)
    requires AllValid(s)
    ensures Fit(Packets(s))
  {
    if s != [] { ValidFit(s[1..]); }
  }

  /**
   The line format is exact: a stream of any length decodes to `packets`, each of a size that fits 32 bits, if and
   only if it is an encoding of them.
  */
  lemma DecodesIffEncodes(lines: seq<Line>, packets: seq<seq<Byte>>)
    ensures Decode(None, lines) == Some(packets) && Fit(packets)
       <==> exists s: seq<Padded> :: AllValid(s) && Packets(s) == packets && EncodeAll(s) == lines
  {
    hide Decode, EncodeAll, Packets, Fit;
    if Decode(None, lines) == Some(packets) && Fit(packets) {
      var s := Unframe(None, lines);
      OpeningOfNothing();
      assert EncodeAll(s) == lines;
    }
    if s: seq<Padded> :| AllValid(s) && Packets(s) == packets && EncodeAll(s) == lines {
      RoundTrip(s);
      ValidFit(s);
    }
  }

  /** Each packet takes ceil(size / 32) lines, the first and only the first flagged FIRST, the last and only it LAST. */
  lemma OneFirstOneLast(p: Padded, i: nat)
    requires p.Valid() && i < LineCount(|p.packet|)
    requires |p.packet| + |p.pad| == 32 * LineCount(|p.packet|)
    ensures |p.Encode()| == LineCount(|p.packet|) && 32 * (|p.Encode()| - 1) < |p.packet| <= 32 * |p.Encode()|
    ensures var f, last := p.Encode()[i].flags, i == |p.Encode()| - 1;
            && (f & 1 != 0 <==> i == 0) && (f & 2 != 0 <==> last) && f & 4 == 0
            && (f >> 3) as nat == if last then |p.pad| else 0
  {
    hide FlagByte, Empty, EmptyCount;
    LineGeometry(|p.packet|);
    FlagFields(i == 0, i == (|p.packet| - 1) / 32, Empty(|p.packet|));
  }

  /**
   Host and kernel agree: for the same headers and payload, the lines that the kernel emits decode to the one
   frame that the host loop hands to `sendto`.
  */
  lemma KernelSendsTheHostFrame(header: seq<Byte>, headerCrc: bv32, payload: seq<Byte>, tail: seq<Byte>)
    requires |payload| == MSG_SIZE && |header| + MSG_SIZE + 4 < 0x1_0000_0000
    requires |tail| >= Empty(|header| + MSG_SIZE + 4)
    ensures var f := Frame(header, headerCrc, payload);
            32 * LineCount(|f|) <= |f + tail|
            && Decode(None, Lines(f + tail, |f|, LineCount(|f|))) == Some([f])
  {
    hide Crc, Le32, Decode, Empty, FlagByte;
    var f := Frame(header, headerCrc, payload);
    LineGeometry(|f|);
    var p := Padded(f, tail[..Empty(|f|)]);
    forall i | 0 <= i < LineCount(|f|) ensures LineAt(f + tail, |f|, i) == LineAt(p.packet + p.pad, |f|, i) {
      assert (f + tail)[32 * i..32 * i + 32] == (p.packet + p.pad)[32 * i..32 * i + 32];
    }
    assert p.Encode() == Lines(f + tail, |f|, LineCount(|f|));
    assert EncodeAll([p]) == p.Encode() + [] && p.Encode() + [] == p.Encode();
    assert Packets([p]) == [f];
    RoundTrip([p]);
  }
}
