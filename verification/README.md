# Verified model of the RoCE / ibverbs prototype

The repository sends InfiniBand datagrams over Ethernet in four ways: through the verbs library (`rdma_client`,
`rdma_server`), through raw sockets (`raw_ibverbs host`), through an FPGA kernel (`raw_ibverbs fpga`,
`ibverbs.cl`) and, as plain UDP, through raw sockets again (`raw_udp`). This project models these programs in Dafny
and proves what their correctness rests on:

* **The invariant checksum.** `Lfsr` defines CRC-32 one bit at a time; `CrcTable` checks the 256 table entries
  against it; `Crc32.TableCrc` is the loop of the source. `Gf2` proves that the checksum is *the* remainder of a
  polynomial division (section 8 of RFC 1952 uses the same code), `TwoBitErrors` that x has order 2^32 - 1 modulo
  the generator. `RawPacket` is the byte layout of the headers, `RawIbverbs` the masked header checksum of
  section 7.8.1 of the InfiniBand Architecture Specification Volume 1, `FrameCheck` the check a receiver can run.
* **The two raw send paths.** `HostSendLoop` and `IbverbsKernel` build the frames, `RawIbverbsMain` runs set-up and
  sending together. The kernel's 32-byte line format is proved to be an exact stream encoding.
* **The work-request ring.** `Rdma` has the circular list of requests on the heap, cut and spliced around each
  post, and the buffers behind it. `ClientProtocol` and `ServerProtocol` are the loops with their NICs as state
  machines, for every ring size and every poll schedule; `SystemProtocol` joins them by a network that loses but
  does not reorder messages. `RdmaClient` and `RdmaServer` are the programs themselves, on real arrays and nodes,
  with a NIC that may act between any two actions; every state they reach is a reachable state of the protocols.
* **The IPv4 header checksum.** `OnesComplement` is the arithmetic of sections 1 and 2 of RFC 1071, `RawUdp` the
  routine of `raw_udp.c` (the checksum of section 3.1 of RFC 791) and its send loop.

What the model assumes about the environment: work requests of one queue complete in the order in which they were
posted (the code relies on it when it reposts from the first polled index); after an error completion a queue pair
completes everything else with an error; the host is little-endian, as the header structs demand; `sendto`, polls,
room in the device queues, completion statuses, arriving datagrams and the moment of the interrupt are arbitrary.
(Queues of the size that `rdma.c` asks for always have room: `QueuesSuffice` of both protocols.)

Where the code disagrees with its comments or its purpose, the model follows the code:

* `raw_udp.c:106` calls 54321 the packet id, but stores the 32-bit swap of it in a 16-bit field; the field is 0
  (`RawUdp.StoredId`, which also says for which ids this happens).
* `rdma_server.c` prints each completion before it looks at its status, so the last printed line may be about no
  received message: `ServerProtocol.PrintsBeforeChecking` gives a run for every ring size, and by
  `ServerProtocol.LogIsAcceptedIffStatusesGood` the log is right if and only if no printed status was bad.
* After a datagram without payload `rdma_server.c` prints the first byte of an older one as if it had just arrived:
  `ServerProtocol.StaleByte` gives a run for every ring size. A successful line shows its own datagram's byte if and
  only if its size exceeds the 40 header bytes; otherwise it shows the first byte of the latest non-empty datagram
  accepted into that slot, or 0 if there was none (`ServerProtocol.ExactlyOnce`, `ServerProtocol.FirstByteIsLatest`).
* `rdma_server.c:103` prints that byte, a `char`, with `%d`: on a host with signed `char` the number is negative for
  bytes from 128 on. A `Report` holds the stored byte, not the printed number.
* `raw_ibverbs.c:158-160` stores the trailing checksum right behind the payload, which is also the end of
  `struct packet`; the model gives the packet buffer these four bytes.

Each imperative method is specified by a function on values, and the lemmas are about that function. `Next` and
`Enabled` of the three protocol modules are the step relations; `Init` is the state before the first fill or post.

## Model

| member | source | states |
|---|---|---|
| CrcTable.TableEntry | crc32.h:17-83 | every one of the 256 table entries equals eight bitwise register steps of its index |
| Crc32.VisitsWholeBuffer | crc32.h:89 | the `int` loop bound covers the buffer exactly for sizes below 2 GiB |
| Crc32.TableStep | crc32.h:90 | one table lookup and shift advances the register by the eight bits of one message byte |
| Crc32.TableCrc | crc32.h:85-94 | the table loop computes the bit-serial CRC of exactly the bytes it visits, for every seed and offset |
| Gf2.Division | crc32.h:85-94 | for every register and bit string some quotient exists such that the register holds the remainder of the shifted message modulo the generator |
| Gf2.RemainderUnique | crc32.h:85-94 | quotient and remainder of a division by a monic polynomial are unique |
| Gf2.CrcIsRemainder | crc32.h:85-94 | a word is the CRC of a message if and only if its complement is the polynomial remainder |
| Gf2.CollisionIffDivisible | crc32.h:85-94 | two messages of one length collide if and only if the generator divides x^32 times their difference |
| Crc32.Chunked | raw_ibverbs.c:65-69 | continuing the checksum of a prefix equals the checksum of the whole |
| Crc32.AffineXor | crc32.h:85-94 | the CRC of the XOR of three messages is the XOR of their CRCs, for every seed |
| Crc32.DetectedByPattern | crc32.h:85-94 | whether a change is detected depends on the changed bits only, not on message or seed |
| Crc32.BurstDetected | crc32.h:85-94 | any change within 32 consecutive transmitted bits changes the checksum, for messages of any length |
| Crc32.FourByteBurstDetected | crc32.h:85-94 | any change within four neighbouring bytes changes the checksum |
| TwoBitErrors.PowerIsRemainder | crc32.h:85-94 | k register steps from the residue class of 1 leave the remainder of x^k modulo the generator |
| TwoBitErrors.OrderOfX | crc32.h:85-94 | x^k is 1 modulo the generator if and only if 2^32 - 1 divides k |
| TwoBitErrors.CancelIff | crc32.h:85-94 | two flipped bits go unnoticed if and only if their distance is a multiple of 2^32 - 1 |
| Crc32.Residue | raw_ibverbs.c:158-160 | message plus four bytes leaves the constant residue if and only if the bytes are its little-endian checksum |
| Bytes.Le32RoundTrip | ibverbs.cl:29 | a stored 32-bit word and its four little-endian bytes determine each other |
| Bytes.StoredSwapIsNetworkOrder | raw_ibverbs.c:117 | storing `htons(x)` on the host puts x on the wire in network order |
| RawPacket.IbRoundTrip | raw_packet.h:17-82 | the bit-field layout of the headers is a bijection with 60-byte strings |
| RawPacket.MaskIsBytewise | raw_ibverbs.c:54-63 | masking the variant fields equals OR-ing fixed bits into the bytes on the wire |
| RawPacket.MaskedImage | raw_ibverbs.c:51-72 | what the header checksum covers begins with 64 one bits, before the 60 masked header bytes |
| RawPacket.ImageIffInvariantFields | raw_ibverbs.c:51-72 | two headers have one masked image if and only if they agree outside traffic class, flow label, hop limit and the reserved byte |
| RawIbverbs.IbHeaderChecksum | raw_ibverbs.c:51-72 | computes the CRC of padding and masked headers from four chunks, without modifying the packet |
| RawIbverbs.IbChecksum | raw_ibverbs.c:76-90 | computes the one-shot CRC of padding, masked headers and the payload bytes that the stored length covers |
| RawIbverbs.CoveredPayload | raw_ibverbs.c:79-80 | the unsigned subtraction covers length - 24 bytes, and after it wraps none |
| RawIbverbs.StoredLengthCoversPayload | raw_ibverbs.c:115-117 | the length stored at set-up makes the full checksum cover exactly the payload |
| RawIbverbs.SetUpChecksum | raw_ibverbs.c:76-135 | on a packet that was set up the full checksum is the cached header checksum continued over the payload |
| RawIbverbs.HeaderChecksumDetects | raw_ibverbs.c:51-72 | headers that differ within four bytes have equal checksums if and only if their invariant fields agree |
| RawIbverbs.InitInvariantHeaders | raw_ibverbs.c:94-135 | sets exactly the invariant fields and returns the header checksum of the result, on zeroed headers the CRC of `CoveredImage`'s bytes |
| RawIbverbs.WireImage | raw_ibverbs.c:103-132 | the 60 header bytes on the wire, all multi-byte fields in network order, queue pairs modulo 2^24 |
| RawIbverbs.CoveredImage | raw_ibverbs.c:51-66 | the 68 bytes that the header checksum of a set-up packet covers, as literals, for all addresses and queue pairs |
| RawIbverbs.EthOnTheWire | raw_ibverbs.c:103-105 | the Ethernet header on the wire: destination, source, type 0x8915 in network order |
| RawIbverbs.StoreChecksum | raw_ibverbs.c:159-160 | stores the word's little-endian bytes and nothing else |
| FrameCheck.AcceptedIffTrailerMatches | raw_ibverbs.c:158-160 | a receiver's single check accepts a frame if and only if its last four bytes are the checksum of the covered bytes before them |
| FrameCheck.ContinuedFrameAccepted | raw_ibverbs.c:156-165 | a frame whose trailer continues the cached header checksum over the payload is accepted, for every header and payload |
| FrameCheck.TamperingDetected | raw_ibverbs.c:51-72 | an accepted frame changed within four bytes stays accepted if and only if no covered bit changed |
| FrameCheck.TwoFlippedBitsDetected | raw_ibverbs.c:76-90 | an accepted frame below 512 MiB with two covered bits flipped is rejected |
| RawSocketIo.Snprintf | raw_ibverbs.c:152 | prints the longest prefix of the text that fits with its terminator, touches nothing else, returns the full length |
| RawSocketIo.DigitsAreNumeral | raw_ibverbs.c:152 | the printed digits are the one decimal numeral of the counter: they denote it and have no leading zero |
| RawSocketIo.MessageTells | raw_ibverbs.c:152 | the printed codes are exactly those of "Message: " and the decimal numeral of the counter |
| HostSendLoop.TextTells | raw_ibverbs.c:152 | the payload bytes of message j are the characters of "Message: " and the number j |
| HostSendLoop.TextFits | raw_ibverbs.c:152-156 | no 32-bit counter value reaches the too-long error exit |
| HostSendLoop.CleanPayload | raw_ibverbs.c:150-153 | after any number of messages the payload is the latest text and zeros; no earlier message shows through |
| HostSendLoop.FillPacket | raw_ibverbs.c:152-160 | one iteration leaves the printed payload followed by the continued checksum |
| HostSendLoop.IbHostSendLoop | raw_ibverbs.c:139-172 | the frames handed to the socket are exactly those of messages 0, 1, 2, ..., and each way out is taken for its reason |
| HostSendLoop.EveryFrameAccepted | raw_ibverbs.c:149-171 | in every run, with the cached header checksum, every frame passes the receiver's check |
| RawIbverbsMain.RunHost | raw_ibverbs.c:231-234 | set-up and loop together send, for each j, an accepted frame with the headers of these addresses and queue pair, exactly "Message: " and the number j as payload, and what `ib_checksum` computes as trailer; destination MAC before source MAC |
| RawIbverbsMain.RunFpga | raw_ibverbs.c:231-233 | set-up and kernel together emit lines that decode to one accepted frame with the headers of these addresses and queue pair, destination MAC first, whatever the kernel's buffer held; each line's flag bits are given |
| RawIbverbsMain.KernelBufferSuffices | ibverbs.cl:21 | the 74 header bytes satisfy the kernel's bound, with six padding bytes in the last line |
| IbverbsKernel.LinesStayInside | ibverbs.cl:21-44 | no line is read past the local buffer if and only if header and padding take at most 96 bytes |
| IbverbsKernel.WriteIbverbPacket | ibverbs.cl:16-45 | the buffer holds headers, untouched payload and continued checksum, and its lines are appended to the channel |
| IbverbsKernel.EmitLines | ibverbs.cl:32-44 | the loop emits each line of the packet once and in order, with bit 0 on the first, bit 1 on the last and the count of padding bytes from bit 3 on |
| IbverbsKernel.FlagFields | ibverbs.cl:35-41 | first flag, last flag and empty count are bit 0, bit 1 and bits 3 to 7 of the flag byte, which never overflows |
| IbverbsKernel.OneFirstOneLast | ibverbs.cl:32-44 | a packet takes ceil(size / 32) lines; exactly the first has bit 0 set and exactly the last bit 1, with its padding counted from bit 3 on |
| IbverbsKernel.RoundTrip | ibverbs.cl:31-44 | decoding the concatenated lines of any packets, with any padding, returns exactly these packets |
| IbverbsKernel.DecodesIffEncodes | ibverbs.cl:31-44 | a line stream of any length decodes to a list of packets of 32-bit sizes if and only if it is an encoding of that list |
| IbverbsKernel.KernelSendsTheHostFrame | ibverbs.cl:21-44 | for equal headers and payload the kernel's lines decode to the very frame of the host loop |
| Rdma.QueuePair.Post | rdma.c:476 | the device copies the null-terminated list from its start, all of it or as much as fits |
| Rdma.CutRing | rdma.c:471-474 | setting one `next` to null leaves exactly the list of `count` nodes from `start` on, around the end of the array |
| Rdma.PostRequests | rdma.c:466-509 | the device gets requests start, ..., start + count - 1 modulo the ring size in order, and on success and failure every `next` is restored |
| Rdma.EntriesTile | rdma.c:214-263 | scatter entries 2i and 2i + 1 are header and payload slot i, and each buffer byte lies in exactly one request's entry |
| Rdma.SlotOverwritten | rdma.c:246-254 | writing inside one payload slot leaves every other slot unchanged |
| Rdma.InitServer | rdma.c:214-264 | set-up zeroes the payload buffer and builds one circle with both scatter entries per request |
| Rdma.InitClient | rdma.c:324-400 | set-up zeroes the payload buffer and builds one circle with one payload slot per request |
| ClientProtocol.StepKeepsInv | rdma_client.c:82-129 | fill, post, poll, refill, repost, stop and NIC completion all keep ring order, buffer contents and the transmitted log |
| ClientProtocol.RunInv | rdma_client.c:82-129 | every state of every run, for every ring size, satisfies the invariant |
| ClientProtocol.LoopHeadOrder | rdma_client.c:95-129 | at each loop head completion queue and send queue are slots h, h + 1, ..., h + N - 1 modulo N, with h the message count |
| ClientProtocol.RepostIsBatch | rdma_client.c:122 | reposting `wc[0].wr_id` and a count reposts exactly the polled batch |
| ClientProtocol.FilledBufferIsIdle | rdma_client.c:117 | a buffer is overwritten only while its request is neither posted nor waiting to be polled |
| ClientProtocol.SentInOrder | rdma_client.c:82-118 | the j-th transmitted message is MSG_SIZE copies of byte j mod 256, for every j of every run |
| RdmaClient.Refill | rdma_client.c:107-118 | the inner loop refills the polled buffers up to the first bad status, and gives up if and only if there is one, under arbitrary NIC activity |
| ClientProtocol.QueuesSuffice | rdma.c:120-131 | with queues of the ring's size a repost always fits and the completion queue never overflows |
| RdmaClient.PostBatch | rdma_client.c:122-126 | the post over real nodes is the protocol's repost step of as many requests as fit, and succeeds if and only if all fit |
| RdmaClient.Round | rdma_client.c:95-128 | one round polls once, refills and reposts all that was polled, or ends for one of the three reasons |
| RdmaClient.Loop | rdma_client.c:95-129 | each way out has its reason: a failed poll, a bad status, a post that did not fit, or all rounds done with everything polled refilled and posted again |
| RdmaClient.RunClient | rdma_client.c:79-131 | the whole program ends in a reachable state with intact ring for one of these reasons, and what it sent is messages 0, 1, 2, ... |
| ServerProtocol.StepKeepsInv | rdma_server.c:76-122 | every step of program and NIC keeps ring order, statuses, unread contents and the printed log |
| ServerProtocol.RunInv | rdma_server.c:76-122 | every state of every run, for every ring size, satisfies the invariant |
| ServerProtocol.LoopHeadOrder | rdma_server.c:83-122 | at each loop head every slot is in exactly one queue, in ring order from the number of printed lines |
| ServerProtocol.ExactlyOnce | rdma_server.c:102-112 | printed line i is about accepted datagram i, in slot i modulo N, with its size; it shows the datagram's first byte if it has one, else the byte `FirstByte` tells; a line without a datagram is a failed completion and the last one |
| ServerProtocol.FirstByteIsLatest | rdma_server.c:103 | the byte shown is the first byte of the latest non-empty datagram accepted into the slot, or of the slot's initial contents |
| ServerProtocol.StaleByte | rdma_server.c:103 | for every ring size and byte, a run whose successful line about an empty datagram shows an earlier datagram's byte |
| ServerProtocol.EverySequencePrinted | rdma_server.c:83-122 | every sequence of datagrams that fit a buffer can be accepted and printed completely |
| ServerProtocol.UnreadIntact | rdma_server.c:102-112 | what is accepted and not yet printed is complete in its slot |
| ServerProtocol.FilledBufferIsIdle | rdma_server.c:83-121 | the NIC never writes into a buffer that is polled or waiting to be polled |
| ServerProtocol.QueuesSuffice | rdma.c:120-131 | with queues of the ring's size a repost always fits and the completion queue never overflows |
| ServerProtocol.LogIsAcceptedIffStatusesGood | rdma_server.c:103-111 | every printed line is about an accepted datagram if and only if no printed completion had a bad status |
| ServerProtocol.PrintsBeforeChecking | rdma_server.c:103-111 | for every ring size a run in which a line is printed although nothing was received |
| RdmaServer.Arrive | rdma.c:248-263 | a datagram's header and payload land in the header and payload slot of its number modulo N and nowhere else |
| RdmaServer.PostBatch | rdma_server.c:116-120 | the post over real nodes is the protocol's repost step of as many requests as fit, and succeeds if and only if all fit |
| RdmaServer.PrintBatch | rdma_server.c:102-112 | the inner loop prints the polled buffers up to and including the first bad status, and gives up if and only if there is one, under arbitrary NIC activity |
| RdmaServer.Round | rdma_server.c:83-121 | one round polls once, prints and reposts all that was polled, or ends for one of the three reasons |
| RdmaServer.Loop | rdma_server.c:83-122 | each way out has its reason: a failed poll, a bad status, a post that did not fit, or all rounds done with everything polled printed and posted again |
| RdmaServer.RunServer | rdma_server.c:73-124 | the whole program ends in a reachable state with intact ring for one of these reasons, and its output tells the accepted datagrams in order, an empty one with the byte that zeroed memory or an earlier datagram left |
| SystemProtocol.RunInv | rdma_client.c:95-129 | every interleaving of both programs, both NICs and the network keeps both invariants and the subsequence relation |
| SystemProtocol.AcceptedAreTransmitted | rdma_server.c:83-122 | in every reachable state the server has accepted a subsequence of what the client has transmitted |
| SystemProtocol.EndToEnd | rdma_server.c:102-103 | the successful printed lines show bytes js[i] mod 256 of client messages js[0] < js[1] < ..., from slot i modulo m, with full size |
| SystemProtocol.EveryMessageDelivered | rdma_server.c:83-122 | for all ring sizes and every k there is a run in which k messages are transmitted, accepted and printed, in order and each once |
| OnesComplement.OnesSumIsFold | raw_udp.c:37-40 | the ones' complement sum is the representative of the plain sum modulo 65535, zero only for zero |
| OnesComplement.VerifiesIff | raw_udp.c:141-142 | a header with a cleared checksum word verifies to zero exactly for the computed checksum, or 65535 in place of 0 |
| OnesComplement.ReplacedWord | raw_udp.c:41-58 | replacing a word goes unnoticed if and only if old and new are equal, or congruent modulo 65535 in an otherwise non-zero header |
| OnesComplement.ByteOrderIndependent | raw_udp.c:142 | the host-order checksum stored in host order puts the bytes of the network-order checksum on the wire |
| RawUdp.AccumulatorFits | raw_udp.c:46-51 | the 32-bit accumulator holds the sum of every buffer of n words if and only if n is at most 32768 |
| RawUdp.TwoFoldsSuffice | raw_udp.c:53-55 | two folds and a truncating complement give the complement of the folded sum for every 31-bit sum |
| RawUdp.Ipv4Check | raw_udp.c:41-58 | the routine computes the ones' complement checksum without overflowing its accumulator |
| RawUdp.StoredId | raw_udp.c:106 | `htonl` swaps the four bytes, so the id field holds the swapped high half of the chosen id, and is zero exactly for ids of at most 16 bits |
| RawUdp.DatagramVerifies | raw_udp.c:134-142 | every datagram's header verifies in host and network order, and its two length fields are its true lengths |
| RawUdp.RewrittenFieldsForgotten | raw_udp.c:127-144 | what an earlier datagram left in the rewritten fields does not influence the next one |
| RawUdp.FillDatagram | raw_udp.c:128-142 | one iteration leaves exactly the datagram of the template and the message in the buffer |
| RawUdp.SendLoop | raw_udp.c:126-150 | the datagrams handed to the socket are exactly those of messages 0, 1, 2, ..., and each way out is taken for its reason |
| RawUdp.EveryDatagramGood | raw_udp.c:126-150 | every datagram j of every run has the template's fixed fields, a header that verifies, true lengths, and "Message: " with the number j as payload |

## Left out

- Sockets, signals, sleeping, diagnostics and argument parsing: input and output without a property of their own; signals are an arbitrary number of loop rounds.
- lookup_addr.c, udp.c, the OpenCL host wrappers and print functions: they only pass arguments to library functions that are not part of this model.
- Device discovery, queue-pair state changes and clean-up: straight-line foreign calls that end the process on failure.
- The `memset` of a send buffer is one step of `ClientProtocol` (in `RdmaClient` it is a byte loop between two NIC activities); `FilledBufferIsIdle` is why a torn read cannot be observed.
- Overflow of the message counters past 2^31 - 1 is undefined in C: the raw senders require fewer rounds, the client counts in unbounded integers (its fill byte is the count modulo 256 in either case).
- Odd-length and empty input of `ipv4check` and posts of zero requests: no caller uses them, so they are preconditions.
- ServerProtocol leaves out the contents of the header slots; `RdmaServer.Arrive` says what is written to them.
- The rule that a poll returning fewer completions than asked for has emptied the queue (sys/verbs.h:2041-2053) is not assumed: the proofs hold for every poll that returns a prefix.
- The header fields that raw_udp.c assigns once are an arbitrary template, the id among them; `RawUdp` does not repeat the assignments that fill it, and `StoredId` says what the one for the id stores.
