/**
 rdma.c: work requests linked into a circle, cut open for each post and spliced again, and the buffers their
 scatter/gather entries point to. Buffers are addressed by their offset in the one allocation they come from.
*/
module Rdma {
  import opened Bytes
  import opened RawPacket
  import opened Ring

  /** Which of the two registered memory regions an entry belongs to (its `lkey`). */
  datatype Region = Payload | Header

  datatype Sge = Sge(region: Region, addr: nat, length: nat)

  /** `ibv_send_wr` and `ibv_recv_wr`, as far as the ring uses them. */
  class WorkRequest {
    var wrId: nat
    var next: WorkRequest?
    var sgList: seq<Sge>

    constructor ()
      ensures next == null
    {
      wrId, next, sgList := 0, null, [];
    }
  }

  /** What the device keeps of a posted request. */
  datatype Wqe = Wqe(wrId: nat, sgList: seq<Sge>)

  /** The two kinds of endpoint differ in their scatter/gather lists. */
  datatype Kind = Send | Receive

  /** The entries of request `i`: its payload slot and, for receives, its header slot first. */
  function Entries(kind: Kind, i: nat): seq<Sge> {
    match kind
    case Send => [Sge(Payload, i * MSG_SIZE, MSG_SIZE)]
    case Receive => [Sge(Header, i * GRH_SIZE, GRH_SIZE), Sge(Payload, i * MSG_SIZE, MSG_SIZE)]
  }

  function Wqes(kind: Kind, ids: seq<nat>): (s: seq<Wqe>)
    ensures |s| == |ids|
    ensures forall k :: 0 <= k < |ids| ==> s[k] == Wqe(ids[k], Entries(kind, ids[k]))
  {
    seq(|ids|, k requires 0 <= k < |ids| => Wqe(ids[k], Entries(kind, ids[k])))
  }

  ghost predicate AllDistinct(requests: seq<WorkRequest>) {
    forall i, j :: 0 <= i < j < |requests| ==> requests[i] != requests[j]
  }

  /** The requests form one circle in array order and know their index and their buffers. */
  ghost predicate IsRing(requests: seq<WorkRequest>, kind: Kind)
    reads requests
  {
    && |requests| > 0 && AllDistinct(requests)
    && (forall i :: 0 <= i < |requests| ==>
          requests[i].next == requests[if i == |requests| - 1 then 0 else i + 1])
    && (forall i :: 0 <= i < |requests| ==> requests[i].wrId == i && requests[i].sgList == Entries(kind, i))
  }

  // ----- the device's view of a list -----

  /** `chain` is the null-terminated list that starts at its first element. */
  ghost predicate IsList(chain: seq<WorkRequest>)
    reads chain
  {
    && chain != []
    && (forall i :: 0 <= i < |chain| - 1 ==> chain[i].next == chain[i + 1])
    && chain[|chain| - 1].next == null
  }

  function Copies(chain: seq<WorkRequest>): (s: seq<Wqe>)
    reads chain
    ensures |s| == |chain|
    ensures forall k :: 0 <= k < |chain| ==> s[k] == Wqe(chain[k].wrId, chain[k].sgList)
  {
    seq(|chain|, k requires 0 <= k < |chain| reads chain => Wqe(chain[k].wrId, chain[k].sgList))
  }

  const ENOMEM: int := 12

  class QueuePair {
    var posted: seq<Wqe>

    constructor ()
      ensures posted == []
    {
      posted := [];
    }

    /**
     `ibv_post_send` and `ibv_post_recv`: follow `next` until it is null, copying each request, or give up when
     there is no room left.
    */
    method Post(first: WorkRequest, room: nat, ghost chain: seq<WorkRequest>) returns (result: int)
      requires IsList(chain) && chain[0] == first
      modifies this
      ensures result == 0 <==> |chain| <= room
      ensures result == 0 || result == ENOMEM
      ensures posted == old(posted) + Copies(chain)[..if |chain| <= room then |chain| else room]
    {
      var current: WorkRequest? := first;
      var taken := 0;
      result := 0;
      while current != null
        invariant 0 <= taken <= |chain| && taken <= room
        invariant current == if taken < |chain| then chain[taken] else null
        invariant posted == old(posted) + Copies(chain)[..taken]
        decreases |chain| - taken
      {
        if taken == room {
          return ENOMEM;
        }
        posted := posted + [Wqe(current.wrId, current.sgList)];
        assert Copies(chain)[..taken + 1] == Copies(chain)[..taken] + [Copies(chain)[taken]];
        current := current.next;
        taken := taken + 1;
      }
    }
  }

  /** The nodes that a walk of `count` steps from `start` visits. */
  ghost function Walk(requests: seq<WorkRequest>, start: nat, count: nat): (s: seq<WorkRequest>)
    requires |requests| > 0
    ensures |s| == count
    ensures forall k :: 0 <= k < count ==> s[k] == requests[(start + k) % |requests|]
  {
    seq(count, k requires 0 <= k < count => requests[(start + k) % |requests|])
  }

  lemma NextIndex(j: nat, n: nat)
    requires n > 0
    ensures (j + 1) % n == if j % n == n - 1 then 0 else j % n + 1
  {
    ModAdd(j, 1, n);
    if j % n == n - 1 { ModUnique(n, n, 1, 0); } else { ModUnique(j % n + 1, n, 0, j % n + 1); }
  }

  /** The circle with the `next` of request `last` set to null. */
  ghost predicate IsCut(requests: seq<WorkRequest>, kind: Kind, last: nat)
    requires last < |requests|
    reads requests
  {
    && AllDistinct(requests) && requests[last].next == null
    && (forall i :: 0 <= i < |requests| && i != last ==>
          requests[i].next == requests[if i == |requests| - 1 then 0 else i + 1])
    && (forall i :: 0 <= i < |requests| ==> requests[i].wrId == i && requests[i].sgList == Entries(kind, i))
  }

  /** Cutting the circle behind one request; the cut-off successor is returned. */
  method Cut(ghost requests: seq<WorkRequest>, ghost kind: Kind, ghost last: nat, node: WorkRequest)
    returns (saved: WorkRequest?)
    requires IsRing(requests, kind) && last < |requests| && node == requests[last]
    modifies node`next
    ensures IsCut(requests, kind, last)
    ensures saved == old(node.next) == requests[if last == |requests| - 1 then 0 else last + 1]
  {
    hide Entries;
    saved := node.next;
    node.next := null;
  }

  method Splice(ghost requests: seq<WorkRequest>, ghost kind: Kind, ghost last: nat, node: WorkRequest,
                saved: WorkRequest?)
    requires last < |requests| && IsCut(requests, kind, last) && node == requests[last]
    requires saved == requests[if last == |requests| - 1 then 0 else last + 1]
    modifies node`next
    ensures IsRing(requests, kind) && node.next == saved
  {
    hide Entries;
    node.next := saved;
  }

  lemma CopiesOfCut(requests: seq<WorkRequest>, kind: Kind, last: nat, start: nat, count: nat)
    requires last < |requests| && IsCut(requests, kind, last)
    ensures Copies(Walk(requests, start, count)) == Wqes(kind, Window(|requests|, start, count))
  {
    hide Entries;
    var chain, ids := Walk(requests, start, count), Window(|requests|, start, count);
    forall k | 0 <= k < count ensures Copies(chain)[k] == Wqes(kind, ids)[k] {
      assert chain[k] == requests[ids[k]];
    }
  }

  /** Cutting the circle behind the last of `count` nodes leaves exactly the list of these nodes. */
  lemma CutRing(requests: seq<WorkRequest>, kind: Kind, start: nat, count: nat)
    requires start < |requests| && 0 < count <= |requests|
    requires IsCut(requests, kind, (start + count - 1) % |requests|)
    ensures IsList(Walk(requests, start, count))
    ensures Walk(requests, start, count)[0] == requests[start]
  {
    hide Entries, AllDistinct;
    var n, chain := |requests|, Walk(requests, start, count);
    forall k | 0 <= k < count - 1 ensures chain[k].next == chain[k + 1] {
      ModDistinct(start + k, start + count - 1, n);
      NextIndex(start + k, n);
    }
    ModUnique(start, n, 0, start);
  }

  /**
   `post_sends` and `post_recvs`: cut the circle, let the device walk from `start`, splice the circle. The device
   gets exactly the `count` requests from `start` on, or a prefix of them when it runs out of room; either way
   every `next` is what it was.
  */
  method PostRequests(requests: seq<WorkRequest>, ghost kind: Kind, qp: QueuePair, start: nat, count: nat, room: nat)
    returns (returnValue: int)
    requires IsRing(requests, kind)
    requires start < |requests| && 0 < count <= |requests|
    modifies requests`next
    modifies qp
    ensures IsRing(requests, kind)
    ensures forall r :: r in requests ==> r.next == old(r.next)
    ensures returnValue == if count <= room then 0 else -1
    ensures qp.posted == old(qp.posted)
                         + Wqes(kind, Window(|requests|, start, count))[..if count <= room then count else room]
  {
    hide Entries, Walk, Window, Wqes, Copies, IsList, IsRing, IsCut;
    var queueSize := |requests|;
    returnValue := 0;

    var lastIdx := (start + count - 1) % queueSize;
    var saved := Cut(requests, kind, lastIdx, requests[lastIdx]);

    ghost var chain := Walk(requests, start, count);
    CutRing(requests, kind, start, count);
    CopiesOfCut(requests, kind, lastIdx, start, count);
    var result := qp.Post(requests[start], room, chain);
    if result != 0 {
      returnValue := -1;
    }

    Splice(requests, kind, lastIdx, requests[lastIdx], saved);
  }

  // ----- buffers -----

  /** The payload slots of one allocation. */
  function Slots(memory: seq<Byte>, n: nat): (s: seq<seq<Byte>>)
    requires |memory| == n * MSG_SIZE
    ensures |s| == n
    ensures forall i :: 0 <= i < n ==> |s[i]| == MSG_SIZE && s[i] == memory[i * MSG_SIZE..i * MSG_SIZE + MSG_SIZE]
  {
    seq(n, i requires 0 <= i < n => memory[i * MSG_SIZE..i * MSG_SIZE + MSG_SIZE])
  }

  /** `n` zeroed payload slots. */
  function ZeroSlots(n: nat): (s: seq<seq<Byte>>)
    ensures |s| == n && forall i :: 0 <= i < n ==> |s[i]| == MSG_SIZE
  {
    seq(n, _ => seq(MSG_SIZE, _ => 0 as Byte))
  }

  lemma SlotsOfZeros(memory: seq<Byte>, n: nat)
    requires |memory| == n * MSG_SIZE && forall k :: 0 <= k < |memory| ==> memory[k] == 0
    ensures Slots(memory, n) == ZeroSlots(n)
  {
    forall i | 0 <= i < n ensures Slots(memory, n)[i] == ZeroSlots(n)[i] {
      assert i * MSG_SIZE + MSG_SIZE <= n * MSG_SIZE;
    }
  }

  /** Overwriting the bytes of one slot changes that slot and no other. */
  lemma SlotOverwritten(before: seq<Byte>, after: seq<Byte>, n: nat, i: nat)
    requires |before| == |after| == n * MSG_SIZE && i < n
    requires forall k :: 0 <= k < |before| && !(i * MSG_SIZE <= k < i * MSG_SIZE + MSG_SIZE) ==> after[k] == before[k]
    ensures Slots(after, n) == Slots(before, n)[i := after[i * MSG_SIZE..i * MSG_SIZE + MSG_SIZE]]
  {
    forall j | 0 <= j < n && j != i ensures Slots(after, n)[j] == Slots(before, n)[j] {
    }
  }

  function SizeOf(region: Region): nat {
    match region
    case Payload => MSG_SIZE
    case Header => GRH_SIZE
  }

  /** The entry lies in slot `i` of its region. */
  predicate Covers(e: Sge, region: Region, i: nat) {
    e.region == region && e.addr == i * SizeOf(region) && e.length == SizeOf(region)
  }

  /**
   The entries of `n` requests tile both buffers: every byte offset of a region lies in exactly one request's
   entry for that region.
  */
  lemma EntriesTile(n: nat, region: Region, offset: nat, i: nat)
    requires offset < n * SizeOf(region)
    ensures var e := Entries(Receive, i)[if region == Header then 0 else 1];
            Covers(e, region, i)
            && (e.addr <= offset < e.addr + e.length <==> i == offset / SizeOf(region))
    ensures offset / SizeOf(region) < n
    ensures Entries(Send, i) == [Entries(Receive, i)[1]]
  {
  }

  /** `memset` */
  method Memset(memory: array<Byte>, offset: nat, value: Byte, size: nat)
    requires offset + size <= memory.Length
    modifies memory
    ensures forall k :: offset <= k < offset + size ==> memory[k] == value
    ensures forall k :: 0 <= k < memory.Length && !(offset <= k < offset + size) ==> memory[k] == old(memory[k])
  {
    for i := 0 to size
      invariant forall k :: offset <= k < offset + i ==> memory[k] == value
      invariant forall k :: 0 <= k < memory.Length && !(offset <= k < offset + i) ==> memory[k] == old(memory[k])
    {
      memory[offset + i] := value;
    }
  }

  // ----- how the programs end -----

  /** By signal, or on one of the error paths to the clean-up code. */
  datatype Exit = Interrupted | PollFailed | FailedStatus | PostFailed

  /** How many completions a row of polls has returned. */
  function Polled(polls: seq<int>): nat {
    if polls == [] then 0
    else
      var last := polls[|polls| - 1];
      Polled(polls[..|polls| - 1]) + if last >= 0 then last else 0
  }

  lemma NothingPolled()
    ensures Polled([]) == 0
  {
  }

  lemma PolledMore(polls: seq<int>, ne: int)
    ensures Polled(polls + [ne]) == Polled(polls) + if ne >= 0 then ne else 0
  {
    assert (polls + [ne])[..|polls|] == polls;
  }

  /** One poll a round; a poll fails exactly if it is the last thing the program does before it gives up for that. */
  ghost predicate PollsTell(exit: Exit, polls: seq<int>, rounds: nat) {
    && |polls| <= rounds
    && (forall k :: 0 <= k < |polls| ==> (polls[k] < 0 <==> exit == PollFailed && k == |polls| - 1))
    && (exit == PollFailed ==> polls != [])
    && (exit == Interrupted ==> |polls| == rounds)
  }

  // ----- set-up -----

  /** `allocate_buf`: a zeroed buffer. */
  method AllocateBuf(size: nat) returns (buf: array<Byte>)
    ensures fresh(buf) && buf.Length == size && forall k :: 0 <= k < size ==> buf[k] == 0
  {
    buf := new Byte[size](_ => 0);
  }

  method AllocateRequests(n: nat) returns (requests: seq<WorkRequest>)
    ensures |requests| == n && AllDistinct(requests)
    ensures forall k :: 0 <= k < n ==> fresh(requests[k])
  {
    requests := [];
    for i := 0 to n
      invariant |requests| == i && AllDistinct(requests)
      invariant forall k :: 0 <= k < i ==> fresh(requests[k])
    {
      var r := new WorkRequest();
      requests := requests + [r];
    }
  }

  /** The part both set-up loops share: index, successor and scatter/gather list of request `i`. */
  method LinkRequest(requests: seq<WorkRequest>, i: nat, sgList: seq<Sge>)
    requires i < |requests| && AllDistinct(requests)
    modifies requests[i]
    ensures requests[i].wrId == i && requests[i].sgList == sgList
    ensures requests[i].next == requests[if i == |requests| - 1 then 0 else i + 1]
  {
    requests[i].wrId := i;
    if i == |requests| - 1 {
      requests[i].next := requests[0];
    } else {
      requests[i].next := requests[i + 1];
    }
    requests[i].sgList := sgList;
  }

  /** The loop of `rdma_init_client`: request `i` sends payload slot `i`, the last request leads back to the first. */
  method LinkSends(requests: seq<WorkRequest>, dataBuffers: array<nat>, scatterGather: array<Sge>)
    requires 0 < |requests| == dataBuffers.Length == scatterGather.Length && AllDistinct(requests)
    modifies requests, dataBuffers, scatterGather
    ensures IsRing(requests, Send)
    ensures forall i :: 0 <= i < |requests| ==> dataBuffers[i] == i * MSG_SIZE
  {
    for i := 0 to |requests|
      invariant forall k :: 0 <= k < i ==> dataBuffers[k] == k * MSG_SIZE
      invariant forall k :: 0 <= k < i ==> requests[k].next == requests[if k == |requests| - 1 then 0 else k + 1]
      invariant forall k :: 0 <= k < i ==> requests[k].wrId == k && requests[k].sgList == Entries(Send, k)
    {
      dataBuffers[i] := i * MSG_SIZE;
      scatterGather[i] := Sge(Payload, dataBuffers[i], MSG_SIZE);
      LinkRequest(requests, i, scatterGather[i..i + 1]);
      assert requests[i].sgList == Entries(Send, i);
    }
  }

  /** `rdma_init_client`: a zeroed buffer and one circle of requests, each with its payload slot. */
  method InitClient(n: nat) returns (requests: seq<WorkRequest>, dataBuffers: array<nat>, memory: array<Byte>)
    requires n > 0
    ensures |requests| == n && IsRing(requests, Send)
    ensures forall k :: 0 <= k < n ==> fresh(requests[k])
    ensures fresh(dataBuffers) && dataBuffers.Length == n && forall i :: 0 <= i < n ==> dataBuffers[i] == i * MSG_SIZE
    ensures fresh(memory) && memory.Length == n * MSG_SIZE && forall k :: 0 <= k < memory.Length ==> memory[k] == 0
  {
    hide Entries, IsRing;
    memory := AllocateBuf(n * MSG_SIZE);
    dataBuffers := new nat[n];
    var scatterGather := new Sge[n];
    requests := AllocateRequests(n);
    LinkSends(requests, dataBuffers, scatterGather);
  }

  lemma ReceiveEntries(i: nat)
    ensures Entries(Receive, i) == [Sge(Header, i * GRH_SIZE, GRH_SIZE), Sge(Payload, i * MSG_SIZE, MSG_SIZE)]
  {
  }

  /** The body of the loop of `rdma_init_server`: request `i` receives into header slot `i` and payload slot `i`. */
  method LinkReceive(requests: seq<WorkRequest>, headerBuffers: array<nat>, dataBuffers: array<nat>,
                     scatterGather: array<Sge>, i: nat)
    requires i < |requests| == headerBuffers.Length == dataBuffers.Length && scatterGather.Length == 2 * |requests|
    requires AllDistinct(requests) && headerBuffers != dataBuffers
    modifies requests[i], headerBuffers, dataBuffers, scatterGather
    ensures headerBuffers[i] == i * GRH_SIZE && dataBuffers[i] == i * MSG_SIZE
    ensures forall k :: 0 <= k < |requests| && k != i ==> headerBuffers[k] == old(headerBuffers[k])
    ensures forall k :: 0 <= k < |requests| && k != i ==> dataBuffers[k] == old(dataBuffers[k])
    ensures requests[i].wrId == i && requests[i].sgList == Entries(Receive, i)
    ensures requests[i].next == requests[if i == |requests| - 1 then 0 else i + 1]
  {
    hide Entries;
    headerBuffers[i] := i * GRH_SIZE;
    dataBuffers[i] := i * MSG_SIZE;
    scatterGather[2 * i] := Sge(Header, headerBuffers[i], GRH_SIZE);
    scatterGather[2 * i + 1] := Sge(Payload, dataBuffers[i], MSG_SIZE);
    ReceiveEntries(i);
    assert scatterGather[2 * i..2 * i + 2] == Entries(Receive, i);
    LinkRequest(requests, i, scatterGather[2 * i..2 * i + 2]);
  }

  /** The loop of `rdma_init_server` closes one circle. */
  method LinkReceives(requests: seq<WorkRequest>, headerBuffers: array<nat>, dataBuffers: array<nat>,
                      scatterGather: array<Sge>)
    requires 0 < |requests| == headerBuffers.Length == dataBuffers.Length && scatterGather.Length == 2 * |requests|
    requires AllDistinct(requests) && headerBuffers != dataBuffers
    modifies requests, headerBuffers, dataBuffers, scatterGather
    ensures IsRing(requests, Receive)
    ensures forall i :: 0 <= i < |requests| ==> headerBuffers[i] == i * GRH_SIZE && dataBuffers[i] == i * MSG_SIZE
  {
    hide Entries;
    for i := 0 to |requests|
      invariant forall k :: 0 <= k < i ==> headerBuffers[k] == k * GRH_SIZE && dataBuffers[k] == k * MSG_SIZE
      invariant forall k :: 0 <= k < i ==> requests[k].next == requests[if k == |requests| - 1 then 0 else k + 1]
      invariant forall k :: 0 <= k < i ==> requests[k].wrId == k && requests[k].sgList == Entries(Receive, k)
    {
      LinkReceive(requests, headerBuffers, dataBuffers, scatterGather, i);
    }
  }

  /** `rdma_init_server`: zeroed buffers and one circle of requests, each with its header slot and payload slot. */
  method InitServer(n: nat)
    returns (requests: seq<WorkRequest>, headerBuffers: array<nat>, dataBuffers: array<nat>,
             headers: array<Byte>, memory: array<Byte>)
    requires n > 0
    ensures |requests| == n && IsRing(requests, Receive)
    ensures forall k :: 0 <= k < n ==> fresh(requests[k])
    ensures fresh(dataBuffers) && dataBuffers.Length == n && forall i :: 0 <= i < n ==> dataBuffers[i] == i * MSG_SIZE
    ensures fresh(headerBuffers) && headerBuffers.Length == n
    ensures forall i :: 0 <= i < n ==> headerBuffers[i] == i * GRH_SIZE
    ensures fresh(memory) && memory.Length == n * MSG_SIZE && forall k :: 0 <= k < memory.Length ==> memory[k] == 0
    ensures fresh(headers) && headers.Length == n * GRH_SIZE && headers != memory
  {
    hide Entries, IsRing;
    memory := AllocateBuf(n * MSG_SIZE);
    headers := AllocateBuf(n * GRH_SIZE);
    headerBuffers := new nat[n];
    dataBuffers := new nat[n];
    var scatterGather := new Sge[2 * n];
    requests := AllocateRequests(n);
    LinkReceives(requests, headerBuffers, dataBuffers, scatterGather);
  }
}
