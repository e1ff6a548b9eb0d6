/** raw_udp.c: the IPv4 header checksum and the send loop that rewrites one header buffer for every datagram. */
module RawUdp {
  import opened Buffers
  import opened OnesComplement
  import opened RawSocketIo

  const IP_MAXPACKET: nat := 65535
  const ETH_SIZE: nat := 14
  const HEADER_SIZE: nat := 42
  const MAX_MSG_SIZE: nat := IP_MAXPACKET - HEADER_SIZE

  // ----- ipv4check -----

  const INT32_MAX: nat := 0x7FFF_FFFF

  /** The 32-bit accumulator holds the sum of every buffer of `n` words exactly when there are at most 32768. */
  lemma AccumulatorFits(n: nat)
    ensures n <= 32768 <==> forall words: seq<Word> :: |words| == n ==> Sum(words) <= INT32_MAX
  {
    if n > 32768 {
      var words: seq<Word> := seq(n, _ => 65535);
      AllOnesSum(words);
    }
  }

  lemma {:induction false} AllOnesSum(words: seq<Word>)
    requires forall i :: 0 <= i < |words| ==> words[i] == 65535
    ensures Sum(words) == 65535 * |words|
  {
    if words != [] { AllOnesSum(words[..|words| - 1]); }
  }

  /** Two additions of the high half and a truncating complement give the complement of the folded sum. */
  lemma TwoFoldsSuffice(sum: nat)
    requires sum <= INT32_MAX
    ensures var once := sum / 65536 + sum % 65536;
            var twice := once + once / 65536;
            (-twice - 1) % 65536 == 65535 - Fold(sum)
  {
    var h, l := sum / 65536, sum % 65536;
    var once := h + l;
    assert sum == 65535 * h + once;
    if once < 65536 {
      assert once / 65536 == 0;
      if sum > 0 {
        if once == 65536 { } else if once > 0 { ModIs(sum - 1, h, once - 1); }
      }
    } else {
      assert once / 65536 == 1;
      ModIs(sum - 1, h + 1, once - 65536);
    }
  }

  /** `ipv4check` over `n` bytes from `offset`, read as 16-bit words of a little-endian host. */
  method Ipv4Check(data: array<Octet>, offset: nat, n: nat) returns (answer: Word)
    requires 0 < n && n % 2 == 0 && n / 2 <= 32768
    requires offset + n <= data.Length
    ensures answer == Checksum(LeWords(data[offset..offset + n]))
  {
    hide Sum, Checksum, OnesSum, Fold;
    ghost var words := LeWords(data[offset..offset + n]);
    var count := 1 + (n - 1) / 2;
    var sum := 0;
    assert words[..0] == [];
    SumOfNothing();
    for i := 0 to count
      invariant sum == Sum(words[..i])
    {
      assert words[i] == WordOf(data[offset + 2 * i], data[offset + 2 * i + 1]);
      SumNext(words, i);
      sum := sum + WordOf(data[offset + 2 * i], data[offset + 2 * i + 1]);
      assert sum <= INT32_MAX;
    }
    assert words[..count] == words;
    ChecksumOfSum(words);
    sum := sum / 65536 + sum % 65536;
    sum := sum + sum / 65536;
    answer := (-sum - 1) % 65536;
  }

  lemma SumOfNothing()
    ensures Sum([]) == 0
  {
  }

  lemma SumNext(words: seq<Word>, i: nat)
    requires i < |words|
    ensures Sum(words[..i + 1]) == Sum(words[..i]) + words[i] <= 65535 * (i + 1)
  {
    assert words[..i + 1][..i] == words[..i];
  }

  lemma ChecksumOfSum(words: seq<Word>)
    requires Sum(words) <= INT32_MAX
    ensures var once := Sum(words) / 65536 + Sum(words) % 65536;
            Checksum(words) == (-(once + once / 65536) - 1) % 65536
  {
    hide Sum, OnesSum, Fold;
    OnesSumIsFold(words);
    TwoFoldsSuffice(Sum(words));
  }

  // ----- the datagrams -----

  function Text(count: nat): (s: seq<Octet>)
    ensures |s| == |Message(count)|
  {
    Message(count)
  }

  lemma TextFits(count: nat)
    requires count < 0x8000_0000
    ensures |Text(count)| < MAX_MSG_SIZE
  {
    MessageLength(count);
  }

  /** `htonl` on a little-endian host. */
  function Htonl(x: nat): nat
    requires x < 0x1_0000_0000
  {
    (x % 256) * 0x100_0000 + (x / 256 % 256) * 0x1_0000 + (x / 0x1_0000 % 256) * 256 + x / 0x100_0000
  }

  lemma HighHalf(id: nat)
    requires id < 0x1_0000_0000
    ensures id / 65536 == 256 * (id / 0x100_0000) + id / 0x1_0000 % 256 < 65536
  {
  }

  lemma LowHalf(h: nat, l: nat)
    requires l < 65536
    ensures (65536 * h + l) % 65536 == l
  {
  }

  lemma HtonlLowHalf(id: nat)
    requires id < 0x1_0000_0000
    ensures Htonl(id) % 65536 == 256 * (id / 0x1_0000 % 256) + id / 0x100_0000
  {
    LowHalf(256 * (id % 256) + id / 256 % 256, 256 * (id / 0x1_0000 % 256) + id / 0x100_0000);
  }

  lemma HtonlHighHalf(id: nat)
    requires id < 0x1_0000_0000
    ensures id % 65536 == 256 * (id / 256 % 256) + id % 256
    ensures Htonl(id) == 65536 * (256 * (id % 256) + id / 256 % 256) + 256 * (id / 0x1_0000 % 256) + id / 0x100_0000
  {
  }

  /**
   `ip_header->id = htonl(id)`: a 32-bit swap stored in a 16-bit field keeps the high half of `id`. The field is
   zero, whatever number was chosen, exactly for ids of at most 16 bits, such as 54321.
  */
  lemma StoredId(id: nat)
    requires id < 0x1_0000_0000
    ensures Htonl(id) == 65536 * Swap(id % 65536) + Swap(id / 65536)
    ensures Htonl(id) % 65536 == Swap(id / 65536)
    ensures Htonl(id) % 65536 == 0 <==> id < 65536
    ensures Htonl(54321) % 65536 == 0
  {
    hide Htonl, Swap;
    HighHalf(id);
    HtonlLowHalf(id);
    HalvesOf(id / 65536, id / 0x100_0000, id / 0x1_0000 % 256);
    HtonlHighHalf(id);
    HalvesOf(id % 65536, id / 256 % 256, id % 256);
    HtonlLowHalf(54321);
  }

  /** The IP header before its checksum is known. */
  function IpHeader(template: seq<Octet>, messageSize: nat): (s: seq<Octet>)
    requires |template| == HEADER_SIZE && messageSize < MAX_MSG_SIZE
    ensures |s| == 20
  {
    template[14..16] + NetworkBytes(28 + messageSize) + template[18..24] + [0, 0] + template[26..34]
  }

  /** One datagram: the template with lengths and checksum filled in, then the message. */
  function Datagram(template: seq<Octet>, message: seq<Octet>): (s: seq<Octet>)
    requires |template| == HEADER_SIZE && |message| < MAX_MSG_SIZE
    ensures |s| == HEADER_SIZE + |message|
  {
    var ip := IpHeader(template, |message|);
    template[..14] + ip[..10] + HostBytes(Checksum(LeWords(ip))) + ip[12..]
    + template[34..38] + NetworkBytes(8 + |message|) + template[40..42] + message
  }

  /** Putting a word into the checksum field changes word 5 of the header and nothing else. */
  lemma PatchedWords(ip: seq<Octet>, c: Word)
    requires |ip| == 20
    ensures LeWords(ip[..10] + HostBytes(c) + ip[12..]) == LeWords(ip)[5 := c]
  {
  }

  /** Every datagram carries a header that verifies, in host and in network order, and the right lengths. */
  lemma DatagramVerifies(template: seq<Octet>, message: seq<Octet>)
    requires |template| == HEADER_SIZE && |message| < MAX_MSG_SIZE
    ensures var d := Datagram(template, message);
            && Checksum(LeWords(d[14..34])) == 0
            && Checksum(BeWords(d[14..34])) == 0
            && d[16..18] == NetworkBytes(|d| - ETH_SIZE)
            && d[38..40] == NetworkBytes(|d| - 34)
            && d[42..] == message
  {
    hide Checksum, LeWords, BeWords, HostBytes, NetworkBytes, Datagram, IpHeader;
    var ip := IpHeader(template, |message|);
    var c := Checksum(LeWords(ip));
    var d := Datagram(template, message);
    DatagramSlices(template, message);
    JoinSlices(d, 14, 24, 26, 34);
    IpHeaderSlices(template, |message|);
    SubSlice(d, 14, 24, 2, 4);
    SubSlice(ip, 0, 10, 2, 4);
    PatchedWords(ip, c);
    CheckFieldClear(template, |message|);
    VerifiesIff(LeWords(ip), 5, c);
    ByteOrderIndependent(d[14..34]);
    ZeroBytes(Checksum(LeWords(d[14..34])), Checksum(BeWords(d[14..34])));
  }

  lemma JoinSlices(s: seq<Octet>, a: nat, b: nat, c: nat, e: nat)
    requires a <= b <= c <= e <= |s|
    ensures s[a..e] == s[a..b] + s[b..c] + s[c..e]
  {
    JoinTwo(s, a, b, c);
    JoinTwo(s, a, c, e);
  }

  lemma JoinTwo(s: seq<Octet>, a: nat, b: nat, c: nat)
    requires a <= b <= c <= |s|
    ensures s[a..c] == s[a..b] + s[b..c]
  {
  }

  lemma SubSlice(s: seq<Octet>, a: nat, b: nat, i: nat, j: nat)
    requires a <= b <= |s| && i <= j <= b - a
    ensures s[a..b][i..j] == s[a + i..a + j]
  {
    forall k | 0 <= k < j - i ensures s[a..b][i..j][k] == s[a + i..a + j][k] {
      assert s[a..b][i..j][k] == s[a..b][i + k] == s[a + (i + k)];
    }
  }

  lemma IpSlices(a: seq<Octet>, b: seq<Octet>, c: seq<Octet>, d: seq<Octet>, e: seq<Octet>)
    requires |a| == 2 && |b| == 2 && |c| == 6 && |d| == 2 && |e| == 8
    ensures var s := a + b + c + d + e;
            s[..2] == a && s[2..4] == b && s[4..10] == c && s[10..12] == d && s[12..] == e
  {
  }

  lemma IpHeaderSlices(template: seq<Octet>, messageSize: nat)
    requires |template| == HEADER_SIZE && messageSize < MAX_MSG_SIZE
    ensures var ip := IpHeader(template, messageSize);
            ip[..2] == template[14..16] && ip[2..4] == NetworkBytes(28 + messageSize)
            && ip[4..10] == template[18..24] && ip[10..12] == [0, 0] && ip[12..] == template[26..34]
  {
    hide NetworkBytes;
    IpSlices(template[14..16], NetworkBytes(28 + messageSize), template[18..24], [0, 0], template[26..34]);
  }

  lemma CheckFieldClear(template: seq<Octet>, messageSize: nat)
    requires |template| == HEADER_SIZE && messageSize < MAX_MSG_SIZE
    ensures LeWords(IpHeader(template, messageSize))[5] == 0
  {
    var ip := IpHeader(template, messageSize);
    assert ip[10] == 0 && ip[11] == 0;
  }

  lemma ZeroBytes(a: Word, b: Word)
    requires a == 0 && HostBytes(a) == NetworkBytes(b)
    ensures b == 0
  {
  }

  /** The datagrams of the first `k` messages. */
  function Datagrams(template: seq<Octet>, k: nat): (s: seq<seq<Octet>>)
    requires |template| == HEADER_SIZE && k <= 0x8000_0000
    ensures |s| == k
  {
    if k == 0 then []
    else
      TextFits(k - 1);
      Datagrams(template, k - 1) + [Datagram(template, Text(k - 1))]
  }

  /** `htons` of a length into the buffer. */
  method StoreNetworkOrder(buffer: array<Octet>, offset: nat, w: Word)
    requires offset + 2 <= buffer.Length
    modifies buffer
    ensures buffer[..] == Patch(old(buffer[..]), offset, NetworkBytes(w))
  {
    buffer[offset], buffer[offset + 1] := w / 256, w % 256;
  }

  method StoreHostOrder(buffer: array<Octet>, offset: nat, w: Word)
    requires offset + 2 <= buffer.Length
    modifies buffer
    ensures buffer[..] == Patch(old(buffer[..]), offset, HostBytes(w))
  {
    buffer[offset], buffer[offset + 1] := w % 256, w / 256;
  }

  /** One iteration up to the `sendto`: message, lengths, cleared checksum, checksum over the 20-byte header. */
  method FillDatagram(buffer: array<Octet>, text: seq<Octet>) returns (messageSize: nat)
    requires buffer.Length == IP_MAXPACKET
    modifies buffer
    ensures messageSize == |text|
    ensures messageSize < MAX_MSG_SIZE ==>
              buffer[..HEADER_SIZE + messageSize] == Datagram(old(buffer[..HEADER_SIZE]), text)
  {
    hide Checksum, LeWords, HostBytes, NetworkBytes, Patch;
    ghost var template := buffer[..HEADER_SIZE];
    messageSize := Snprintf(buffer, HEADER_SIZE, MAX_MSG_SIZE, text, 0);
    if messageSize >= MAX_MSG_SIZE {
      return;
    }
    var totalLength := HEADER_SIZE + messageSize;
    var ipLength := totalLength - ETH_SIZE;
    ghost var printed := buffer[..];
    assert printed[..HEADER_SIZE] == template;
    PrintedText(printed, old(buffer[HEADER_SIZE..HEADER_SIZE + MAX_MSG_SIZE]), text);
    StoreNetworkOrder(buffer, 16, ipLength);
    StoreNetworkOrder(buffer, 38, 8 + messageSize);
    ZeroWord();
    StoreHostOrder(buffer, 24, 0);
    ghost var cleared := buffer[..];
    assert cleared == Cleared(printed, messageSize);
    HeaderCleared(printed, text);
    assert buffer[14..34] == cleared[14..34];
    var check := Ipv4Check(buffer, 14, 20);
    StoreHostOrder(buffer, 24, check);
    assert buffer[..] == Patch(cleared, 24, HostBytes(check));
    ChecksumStored(printed, text);
    assert buffer[..totalLength] == Patch(cleared, 24, HostBytes(check))[..totalLength];
  }

  lemma PrintedText(printed: seq<Octet>, before: seq<Octet>, text: seq<Octet>)
    requires |printed| == IP_MAXPACKET && |before| == MAX_MSG_SIZE && |text| < MAX_MSG_SIZE
    requires printed[HEADER_SIZE..HEADER_SIZE + MAX_MSG_SIZE] == WithString(before, text, 0)
    ensures printed[HEADER_SIZE..HEADER_SIZE + |text|] == text
  {
    var area := printed[HEADER_SIZE..HEADER_SIZE + MAX_MSG_SIZE];
    forall i | 0 <= i < |text| ensures printed[HEADER_SIZE + i] == text[i] {
      assert area[i] == printed[HEADER_SIZE + i];
    }
  }

  /** The buffer after the lengths are stored and the checksum is cleared. */
  function Cleared(printed: seq<Octet>, messageSize: nat): (s: seq<Octet>)
    requires |printed| == IP_MAXPACKET && messageSize < MAX_MSG_SIZE
    ensures |s| == IP_MAXPACKET
  {
    Patch(Patch(Patch(printed, 16, NetworkBytes(28 + messageSize)), 38, NetworkBytes(8 + messageSize)), 24, [0, 0])
  }

  /** After the lengths are stored and the checksum cleared, the header is the one the checksum is defined on. */
  lemma HeaderCleared(printed: seq<Octet>, text: seq<Octet>)
    requires |printed| == IP_MAXPACKET && |text| < MAX_MSG_SIZE
    ensures Cleared(printed, |text|)[14..34] == IpHeader(printed[..HEADER_SIZE], |text|)
  {
    hide NetworkBytes, Patch, IpHeader;
    var cleared := Cleared(printed, |text|);
    var ip := IpHeader(printed[..HEADER_SIZE], |text|);
    TemplateSlices(printed);
    IpHeaderSlices(printed[..HEADER_SIZE], |text|);
    forall i | 0 <= i < 20 ensures cleared[14 + i] == ip[i] {
      if i < 2 { assert ip[i] == ip[..2][i]; }
      else if i < 4 { assert ip[i] == ip[2..4][i - 2]; }
      else if i < 10 { assert ip[i] == ip[4..10][i - 4]; }
      else if i < 12 { assert ip[i] == ip[10..12][i - 10]; }
      else { assert ip[i] == ip[12..][i - 12]; }
    }
  }

  lemma ChecksumStored(printed: seq<Octet>, text: seq<Octet>)
    requires |printed| == IP_MAXPACKET && |text| < MAX_MSG_SIZE
    requires printed[HEADER_SIZE..HEADER_SIZE + |text|] == text
    ensures var cleared := Cleared(printed, |text|);
            Patch(cleared, 24, HostBytes(Checksum(LeWords(cleared[14..34]))))[..HEADER_SIZE + |text|]
            == Datagram(printed[..HEADER_SIZE], text)
  {
    hide Checksum, LeWords, HostBytes, NetworkBytes, Patch;
    HeaderCleared(printed, text);
    var cleared := Cleared(printed, |text|);
    var ip := IpHeader(printed[..HEADER_SIZE], |text|);
    var c := HostBytes(Checksum(LeWords(ip)));
    var d, e := Datagram(printed[..HEADER_SIZE], text), Patch(cleared, 24, c)[..HEADER_SIZE + |text|];
    assert cleared[14..34] == ip;
    TemplateSlices(printed);
    DatagramSlices(printed[..HEADER_SIZE], text);
    assert e[..14] == printed[..14] && e[14..24] == cleared[14..34][..10] && e[24..26] == c;
    assert e[26..34] == cleared[14..34][12..] && e[34..38] == printed[34..38];
    assert e[38..40] == NetworkBytes(8 + |text|) && e[40..42] == printed[40..42] && e[42..] == text;
    SplitDatagram(d);
    SplitDatagram(e);
  }

  lemma DatagramSlices(template: seq<Octet>, message: seq<Octet>)
    requires |template| == HEADER_SIZE && |message| < MAX_MSG_SIZE
    ensures var ip, d := IpHeader(template, |message|), Datagram(template, message);
            d[..14] == template[..14] && d[14..24] == ip[..10] && d[24..26] == HostBytes(Checksum(LeWords(ip)))
            && d[26..34] == ip[12..] && d[34..38] == template[34..38] && d[38..40] == NetworkBytes(8 + |message|)
            && d[40..42] == template[40..42] && d[42..] == message
  {
    hide Checksum, LeWords, HostBytes, NetworkBytes, IpHeader;
    var ip := IpHeader(template, |message|);
    Slices(template[..14], ip[..10], HostBytes(Checksum(LeWords(ip))), ip[12..],
           template[34..38], NetworkBytes(8 + |message|), template[40..42], message);
  }

  lemma Slices(a: seq<Octet>, b: seq<Octet>, c: seq<Octet>, d: seq<Octet>,
               e: seq<Octet>, f: seq<Octet>, g: seq<Octet>, h: seq<Octet>)
    requires |a| == 14 && |b| == 10 && |c| == 2 && |d| == 8 && |e| == 4 && |f| == 2 && |g| == 2
    ensures var s := a + b + c + d + e + f + g + h;
            s[..14] == a && s[14..24] == b && s[24..26] == c && s[26..34] == d
            && s[34..38] == e && s[38..40] == f && s[40..42] == g && s[42..] == h
  {
  }

  lemma TemplateSlices(printed: seq<Octet>)
    requires |printed| >= HEADER_SIZE
    ensures var t := printed[..HEADER_SIZE];
            t[..14] == printed[..14] && t[14..16] == printed[14..16] && t[18..24] == printed[18..24]
            && t[26..34] == printed[26..34] && t[34..38] == printed[34..38] && t[40..42] == printed[40..42]
  {
  }

  lemma SplitDatagram(d: seq<Octet>)
    requires |d| >= HEADER_SIZE
    ensures d == d[..14] + d[14..24] + d[24..26] + d[26..34] + d[34..38] + d[38..40] + d[40..42] + d[42..]
  {
  }

  lemma ZeroWord()
    ensures HostBytes(0) == [0, 0]
  {
  }

  /** The header bytes that the loop never rewrites: all but total length, IP checksum and UDP length. */
  predicate Fixed(i: nat) {
    i < HEADER_SIZE && !(16 <= i < 18) && !(24 <= i < 26) && !(38 <= i < 40)
  }

  ghost predicate SameFixedFields(a: seq<Octet>, b: seq<Octet>) {
    |a| == |b| == HEADER_SIZE && forall i: nat :: Fixed(i) ==> a[i] == b[i]
  }

  lemma DatagramKeepsFixed(template: seq<Octet>, message: seq<Octet>, i: nat)
    requires |template| == HEADER_SIZE && |message| < MAX_MSG_SIZE && Fixed(i)
    ensures Datagram(template, message)[i] == template[i]
  {
    hide Checksum, LeWords, HostBytes, NetworkBytes;
    var ip := IpHeader(template, |message|);
    var front := template[..14] + ip[..10] + HostBytes(Checksum(LeWords(ip))) + ip[12..];
    var d := Datagram(template, message);
    if i < 34 {
      assert d[i] == front[i];
    } else {
      assert d[34..42] == template[34..38] + NetworkBytes(8 + |message|) + template[40..42];
      assert d[i] == d[34..42][i - 34];
    }
  }

  lemma SameIpHeader(a: seq<Octet>, b: seq<Octet>, messageSize: nat)
    requires SameFixedFields(a, b) && messageSize < MAX_MSG_SIZE
    ensures IpHeader(a, messageSize) == IpHeader(b, messageSize)
  {
    hide NetworkBytes;
    assert a[14..16] == b[14..16];
    assert a[18..24] == b[18..24];
    assert a[26..34] == b[26..34];
  }

  /** What an earlier datagram left in the rewritten fields does not reach the next one. */
  lemma RewrittenFieldsForgotten(a: seq<Octet>, b: seq<Octet>, message: seq<Octet>)
    requires SameFixedFields(a, b) && |message| < MAX_MSG_SIZE
    ensures Datagram(a, message) == Datagram(b, message)
    ensures SameFixedFields(Datagram(a, message)[..HEADER_SIZE], b)
  {
    SameDatagram(a, b, message);
    hide Datagram;
    forall i: nat | Fixed(i) ensures Datagram(a, message)[i] == b[i] {
      DatagramKeepsFixed(a, message, i);
    }
  }

  lemma SameDatagram(a: seq<Octet>, b: seq<Octet>, message: seq<Octet>)
    requires SameFixedFields(a, b) && |message| < MAX_MSG_SIZE
    ensures Datagram(a, message) == Datagram(b, message)
  {
    hide Checksum, LeWords, HostBytes, NetworkBytes, IpHeader;
    SameIpHeader(a, b, |message|);
    assert a[..14] == b[..14];
    assert a[34..38] == b[34..38];
    assert a[40..42] == b[40..42];
  }

  lemma {:induction false} DatagramAt(template: seq<Octet>, k: nat, j: nat)
    requires |template| == HEADER_SIZE && j < k <= 0x8000_0000
    ensures |Text(j)| < MAX_MSG_SIZE && Datagrams(template, k)[j] == Datagram(template, Text(j))
  {
    hide Datagram, Text;
    TextFits(j);
    if j < k - 1 { DatagramAt(template, k - 1, j); }
  }

  /**
   What is sent for message `j`: the fixed header fields of the template, a header that verifies in either byte order,
   true lengths, and "Message: " with the number j as the whole payload.
  */
  ghost predicate GoodDatagram(frame: seq<Octet>, template: seq<Octet>, j: nat) {
    && HEADER_SIZE < |frame| <= IP_MAXPACKET && SameFixedFields(frame[..HEADER_SIZE], template)
    && Checksum(LeWords(frame[14..34])) == 0 && Checksum(BeWords(frame[14..34])) == 0
    && frame[16..18] == NetworkBytes(|frame| - 14) && frame[38..40] == NetworkBytes(|frame| - 34)
    && IsMessage(frame[42..], j)
  }

  /** Whole runs: every datagram of every run is good. */
  lemma EveryDatagramGood(template: seq<Octet>, k: nat, j: nat)
    requires |template| == HEADER_SIZE && j < k <= 0x8000_0000
    ensures GoodDatagram(Datagrams(template, k)[j], template, j)
  {
    hide Checksum, LeWords, BeWords, NetworkBytes, Datagram, Datagrams, IsMessage, Message, Fixed;
    DatagramAt(template, k, j);
    DatagramVerifies(template, Text(j));
    RewrittenFieldsForgotten(template, template, Text(j));
    MessageTells(Text(j), j);
  }

  /** The loop of `main`; `network[j]` says whether the j-th `sendto` succeeds. */
  method SendLoop(buffer: array<Octet>, socket: RawSocket<Octet>, network: seq<bool>)
    returns (exit: Exit, sent: nat)
    requires buffer.Length == 65535 && |network| < 0x8000_0000
    modifies buffer, socket
    ensures sent <= |network| && forall j :: 0 <= j < sent ==> network[j]
    ensures socket.frames == old(socket.frames) + Datagrams(old(buffer[..HEADER_SIZE]), sent)
    ensures exit == Interrupted <==> sent == |network|
    ensures exit == SendFailed ==> sent < |network| && !network[sent]
    ensures exit == MessageTooLong ==> |Text(sent)| >= MAX_MSG_SIZE
  {
    hide Checksum, Text, Datagram;
    ghost var template := buffer[..HEADER_SIZE];
    var count := 0;
    while count < |network|
      invariant 0 <= count <= |network|
      invariant forall j :: 0 <= j < count ==> network[j]
      invariant SameFixedFields(buffer[..HEADER_SIZE], template)
      invariant socket.frames == old(socket.frames) + Datagrams(template, count)
    {
      ghost var before := buffer[..HEADER_SIZE];
      var messageSize := FillDatagram(buffer, Text(count));
      if messageSize >= MAX_MSG_SIZE {
        return MessageTooLong, count;
      }
      var frame := buffer[..HEADER_SIZE + messageSize];
      RewrittenFieldsForgotten(before, template, Text(count));
      assert buffer[..HEADER_SIZE] == frame[..HEADER_SIZE];
      var result := socket.SendTo(frame, network[count]);
      if result == -1 {
        return SendFailed, count;
      }
      assert Datagrams(template, count + 1) == Datagrams(template, count) + [frame];
      count := count + 1;
    }
    return Interrupted, count;
  }
}
