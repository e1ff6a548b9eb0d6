/**
 rdma_client.c: the fill, post, poll, refill, repost loop over real buffers and work requests, run against a NIC
 that may complete requests between any two actions. Every state the program passes through is proved to be a
 reachable state of `ClientProtocol`.
*/
module RdmaClient {
  import opened Bytes
  import opened Options
  import opened RawPacket
  import opened Ring
  import opened Rdma
  import C = ClientProtocol

  /** The bytes a scatter/gather list names, in order. */
  function Gather(memory: seq<Byte>, sgList: seq<Sge>): seq<Byte> {
    if sgList == [] then []
    else
      var e := sgList[0];
      (if e.addr + e.length <= |memory| then memory[e.addr..e.addr + e.length] else []) + Gather(memory, sgList[1..])
  }

  /** The sending side of the device with its completion queue; `memory` is the buffer it reads by DMA. */
  class Nic {
    const qp: QueuePair
    const memory: array<Byte>
    var completed: seq<C.Completion>
    var broken: bool
    var polls: seq<int>   // what each poll has returned
    var sent: seq<seq<Byte>>

    constructor (memory: array<Byte>)
      ensures this.memory == memory && fresh(qp) && qp.posted == []
      ensures completed == [] && !broken && polls == [] && sent == []
    {
      this.memory := memory;
      qp := new QueuePair();
      completed, broken, polls, sent := [], false, [], [];
    }

    /** The oldest posted request is transmitted, or flushed once the queue pair is in its error state. */
    method CompleteOldest(ok: bool)
      requires qp.posted != []
      modifies this, qp
      ensures qp.posted == old(qp.posted)[1..] && polls == old(polls)
      ensures var good := ok && !old(broken);
              && completed == old(completed) + [C.Completion(old(qp.posted)[0].wrId, good)]
              && broken == !good
              && sent == if good then old(sent) + [Gather(memory[..], old(qp.posted)[0].sgList)] else old(sent)
    {
      var wqe := qp.posted[0];
      qp.posted := qp.posted[1..];
      var good := ok && !broken;
      if good {
        sent := sent + [Gather(memory[..], wqe.sgList)];
      }
      completed := completed + [C.Completion(wqe.wrId, good)];
      broken := !good;
    }

    /** `ibv_poll_cq`: an error, or up to `entries` completions in the order in which they were queued. */
    method PollCq(entries: nat, wc: array<C.Completion>) returns (ne: int)
      requires entries <= wc.Length
      modifies this`completed, this`polls, wc
      ensures polls == old(polls) + [ne]
      ensures ne < 0 ==> completed == old(completed)
      ensures ne >= 0 ==> ne <= entries && ne <= |old(completed)|
                          && wc[..ne] == old(completed)[..ne] && completed == old(completed)[ne..]
    {
      ne := *;
      if ne < 0 || ne > entries || ne > |completed| {
        polls := polls + [-1];
        return -1;
      }
      polls := polls + [ne];
      forall i | 0 <= i < ne {
        wc[i] := completed[i];
      }
      completed := completed[ne..];
    }
  }

  /** The buffers, the device and the protocol state agree. */
  ghost predicate Matches(s: C.Client, nic: Nic, n: nat)
    reads nic, nic.qp, nic.memory
  {
    && nic.memory.Length == n * MSG_SIZE
    && s.slots == Slots(nic.memory[..], n)
    && nic.qp.posted == Wqes(Send, s.posted)
    && s.completed == nic.completed && s.broken == nic.broken && s.sent == nic.sent
  }

  /** A request's list gathers exactly its slot. */
  lemma GatherSlot(memory: seq<Byte>, n: nat, i: nat)
    requires |memory| == n * MSG_SIZE && i < n
    ensures Gather(memory, Entries(Send, i)) == Slots(memory, n)[i]
  {
    var e := Entries(Send, i)[0];
    assert Entries(Send, i)[1..] == [];
    assert i * MSG_SIZE + MSG_SIZE <= n * MSG_SIZE;
    assert Gather(memory, []) == [];
    assert memory[e.addr..e.addr + e.length] + [] == memory[e.addr..e.addr + e.length];
  }

  /** Any number of completions, at any time. */
  method Interfere(nic: Nic, ghost n: nat, ghost s: C.Client) returns (ghost t: C.Client)
    requires C.Reachable(s, n) && Matches(s, nic, n)
    modifies nic, nic.qp
    ensures C.Reachable(t, n) && Matches(t, nic, n)
    ensures t.slots == s.slots && t.count == s.count && t.batch == s.batch && t.filled == s.filled
    ensures t.running == s.running && nic.polls == old(nic.polls)
  {
    t := s;
    while nic.qp.posted != []
      invariant C.Reachable(t, n) && Matches(t, nic, n)
      invariant t.slots == s.slots && t.count == s.count && t.batch == s.batch && t.filled == s.filled
      invariant t.running == s.running && nic.polls == old(nic.polls)
      decreases |nic.qp.posted|
    {
      if * {
        break;
      }
      var ok: bool := *;
      t := CompleteOne(nic, n, t, ok);
    }
  }

  method CompleteOne(nic: Nic, ghost n: nat, ghost s: C.Client, ok: bool) returns (ghost t: C.Client)
    requires C.Reachable(s, n) && Matches(s, nic, n) && nic.qp.posted != []
    modifies nic, nic.qp
    ensures C.Reachable(t, n) && Matches(t, nic, n) && |nic.qp.posted| < |old(nic.qp.posted)|
    ensures t.slots == s.slots && t.count == s.count && t.batch == s.batch && t.filled == s.filled
    ensures t.running == s.running && nic.polls == old(nic.polls)
  {
    hide C.Reachable, Gather, Entries, Slots;
    C.ReachableInv(s, n);
    C.RingPositions(s);
    GatherSlot(nic.memory[..], n, s.posted[0]);
    nic.CompleteOldest(ok);
    t := C.Next(s, C.Complete(ok));
    C.ReachableNext(s, n, C.Complete(ok));
    assert nic.qp.posted == Wqes(Send, t.posted);
  }

  /** One `memset` of a fill loop. */
  method FillBuffer(nic: Nic, ghost n: nat, ghost s: C.Client, dataBuffers: array<nat>, id: nat, count: nat)
    returns (ghost t: C.Client)
    requires C.Reachable(s, n) && Matches(s, nic, n)
    requires s.running && s.filled < |s.batch| && s.batch[s.filled] == C.Completion(id, true) && s.count == count
    requires dataBuffers.Length == n && forall i :: 0 <= i < n ==> dataBuffers[i] == i * MSG_SIZE
    modifies nic.memory
    ensures t == s.(slots := t.slots, count := count + 1, filled := s.filled + 1)
    ensures C.Reachable(t, n) && Matches(t, nic, n)
  {
    hide C.Reachable, Slots;
    C.ReachableInv(s, n);
    C.RingPositions(s);
    ghost var before := nic.memory[..];
    Memset(nic.memory, dataBuffers[id], (count % 256) as bv8, MSG_SIZE);
    SlotOverwritten(before, nic.memory[..], n, id);
    assert nic.memory[..][id * MSG_SIZE..id * MSG_SIZE + MSG_SIZE] == C.Fill(count);
    t := C.Next(s, C.FillNext);
    C.ReachableNext(s, n, C.FillNext);
  }

  /** `post_sends(start, count)` when everything polled, or at first everything, has been filled. */
  method PostBatch(nic: Nic, ghost n: nat, ghost s: C.Client, requests: seq<WorkRequest>, start: nat, count: nat,
                   room: nat)
    returns (result: int, ghost t: C.Client)
    requires C.Reachable(s, n) && Matches(s, nic, n)
    requires |requests| == n && IsRing(requests, Send)
    requires s.running && s.filled == |s.batch| == count > 0 && s.batch[0].wrId == start
    modifies requests`next, nic.qp
    ensures IsRing(requests, Send)
    ensures C.Reachable(t, n) && Matches(t, nic, n)
    ensures var step := C.Repost(if count <= room then count else room);
            C.Enabled(s, step) && t == C.Next(s, step)
    ensures result == 0 <==> count <= room
    ensures if result == 0 then t.batch == [] && t.running else t.batch == s.batch[room..] && !t.running
    ensures t.filled == |t.batch| && t.count == s.count && nic.polls == old(nic.polls)
  {
    hide C.Reachable, Slots, Entries, Window, IsRing;
    C.ReachableInv(s, n);
    C.RingPositions(s);
    var taken := if count <= room then count else room;
    result := PostRequests(requests, Send, nic.qp, start, count, room);
    t := C.Next(s, C.Repost(taken));
    C.ReachableNext(s, n, C.Repost(taken));
    assert Wqes(Send, s.posted) + Wqes(Send, Window(n, start, count))[..taken] == Wqes(Send, t.posted);
  }

  lemma SentMessages(s: C.Client, n: nat)
    requires C.Reachable(s, n)
    ensures forall j :: 0 <= j < |s.sent| ==> s.sent[j] == C.Fill(j)
  {
    hide C.Reachable, C.RingOrder, C.Contents;
    C.ReachableInv(s, n);
  }

  /** `main`, interrupted after `rounds` rounds at the latest. */
  method RunClient(n: nat, rounds: nat) returns (exit: Exit, nic: Nic, requests: seq<WorkRequest>, ghost s: C.Client)
    requires n > 0
    ensures |requests| == n && IsRing(requests, Send)
    ensures C.Reachable(s, n) && Matches(s, nic, n)
    ensures forall j :: 0 <= j < |nic.sent| ==> nic.sent[j] == C.Fill(j)
    ensures Ended(exit, s, n, nic.polls, rounds)
    ensures exit == Interrupted ==> C.Ids(nic.completed) + s.posted == Window(n, s.count, n)
  {
    hide C.Reachable, Slots, Entries, Window, IsRing, C.Fill, C.Enabled, C.Next, Polled;
    var dataBuffers, memory;
    requests, dataBuffers, memory := InitClient(n);
    nic := new Nic(memory);
    s := Start(nic, n);

    var count := 0;
    for i := 0 to n
      invariant C.Reachable(s, n) && Matches(s, nic, n) && nic.memory == memory
      invariant IsRing(requests, Send)
      invariant forall k :: 0 <= k < n ==> dataBuffers[k] == k * MSG_SIZE
      invariant s.running && s.filled == s.count == count == i && |s.batch| == n
      invariant nic.polls == []
      invariant forall k :: 0 <= k < n ==> s.batch[k] == C.Completion(k, true)
    {
      s := FillBuffer(nic, n, s, dataBuffers, i, count);
      count := count + 1;
    }

    ghost var batch := s.batch;
    var room: nat :| 0 <= room;
    var result;
    result, s := PostBatch(nic, n, s, requests, 0, n, room);
    SentMessages(s, n);
    NothingPolled();
    if result != 0 {
      RestGood(batch, room);
      return PostFailed, nic, requests, s;
    }

    exit, s := Loop(nic, n, s, requests, dataBuffers, count, rounds);
    SentMessages(s, n);
    if exit == Interrupted {
      C.LoopHeadOrder(s, n);
    }
  }

  /** Before anything is filled, the buffers are all the application's. */
  method Start(nic: Nic, ghost n: nat) returns (ghost s: C.Client)
    requires n > 0 && nic.memory.Length == n * MSG_SIZE
    requires nic.qp.posted == [] && nic.completed == [] && !nic.broken && nic.sent == []
    ensures C.Reachable(s, n) && Matches(s, nic, n)
    ensures s.running && s.filled == s.count == 0 && |s.batch| == n
    ensures forall k :: 0 <= k < n ==> s.batch[k] == C.Completion(k, true)
  {
    s := C.Init(Slots(nic.memory[..], n));
    C.InitReachable(Slots(nic.memory[..], n));
  }

  /** One poll, and the protocol step it is. */
  method PollBatch(nic: Nic, ghost n: nat, ghost s: C.Client, wc: array<C.Completion>)
    returns (ne: int, ghost t: C.Client)
    requires C.Reachable(s, n) && Matches(s, nic, n) && wc.Length == 10
    requires s.running && s.batch == []
    modifies nic`completed, nic`polls, wc
    ensures C.Reachable(t, n) && Matches(t, nic, n)
    ensures nic.polls == old(nic.polls) + [ne] && t.count == s.count
    ensures if ne < 0 then t.batch == [] && t.filled == s.filled && !t.running
            else ne <= 10 && t.batch == wc[..ne] && t.filled == 0 && t.running
  {
    hide C.Reachable, Slots;
    ne := nic.PollCq(10, wc);
    if ne < 0 {
      t := C.Next(s, C.Stop);
      C.ReachableNext(s, n, C.Stop);
    } else {
      t := C.Next(s, C.Poll(ne));
      C.ReachableNext(s, n, C.Poll(ne));
    }
  }

  ghost predicate AllGood(wcs: seq<C.Completion>) {
    forall k :: 0 <= k < |wcs| ==> wcs[k].ok
  }

  lemma RestGood(wcs: seq<C.Completion>, k: nat)
    requires AllGood(wcs) && k <= |wcs|
    ensures AllGood(wcs[k..])
  {
  }

  /** The inner loop: check each completion and refill its buffer; the first bad status ends it, and nothing else. */
  method Refill(nic: Nic, ghost n: nat, ghost s: C.Client, dataBuffers: array<nat>, wc: array<C.Completion>, ne: nat,
                count: nat) returns (ok: bool, count': nat, ghost t: C.Client)
    requires C.Reachable(s, n) && Matches(s, nic, n) && ne <= wc.Length && wc as object != nic.memory
    requires s.running && s.batch == wc[..ne] && s.filled == 0 && s.count == count
    requires dataBuffers.Length == n && forall i :: 0 <= i < n ==> dataBuffers[i] == i * MSG_SIZE
    modifies nic, nic.qp, nic.memory
    ensures C.Reachable(t, n) && Matches(t, nic, n)
    ensures ok <==> AllGood(s.batch)
    ensures t.batch == s.batch && t.running == ok
    ensures if ok then t.filled == ne
            else t.filled < ne && !s.batch[t.filled].ok && AllGood(s.batch[..t.filled])
    ensures t.count == count' == count + t.filled && nic.polls == old(nic.polls)
  {
    hide C.Reachable, Slots, C.Fill;
    t, count' := s, count;
    for i := 0 to ne
      invariant C.Reachable(t, n) && Matches(t, nic, n)
      invariant forall k :: 0 <= k < ne ==> wc[k] == s.batch[k]
      invariant forall k :: 0 <= k < n ==> dataBuffers[k] == k * MSG_SIZE
      invariant t.running && t.batch == s.batch && t.filled == i && t.count == count' == count + i
      invariant forall k :: 0 <= k < i ==> s.batch[k].ok
      invariant nic.polls == old(nic.polls)
    {
      t := Interfere(nic, n, t);
      if !wc[i].ok {
        C.ReachableNext(t, n, C.BadCompletion);
        t := C.Next(t, C.BadCompletion);
        return false, count', t;
      }
      t := FillBuffer(nic, n, t, dataBuffers, wc[i].wrId, count');
      count' := count' + 1;
    }
    ok := true;
  }

  /**
   Each way out has its reason, and after the first turn a message has been filled for everything polled, but for
   what the program gave up on: by signal all is posted again; otherwise a poll failed, a completion had a bad status,
   or not all requests could be posted.
  */
  ghost predicate Ended(exit: Exit, s: C.Client, n: nat, polls: seq<int>, rounds: nat) {
    && PollsTell(exit, polls, rounds)
    && s.count + (|s.batch| - s.filled) == n + Polled(polls)
    && s.running == (exit == Interrupted)
    && match exit
       case Interrupted => s.batch == []
       case PollFailed => s.batch == []
       case FailedStatus => s.filled < |s.batch| && !s.batch[s.filled].ok && AllGood(s.batch[..s.filled])
       case PostFailed => s.filled == |s.batch| > 0 && AllGood(s.batch)
  }

  lemma MoreRounds(exit: Exit, s: C.Client, n: nat, polls: seq<int>, rounds: nat, more: nat)
    requires Ended(exit, s, n, polls, rounds) && exit != Interrupted && rounds <= more
    ensures Ended(exit, s, n, polls, more)
  {
    hide Polled, AllGood;
  }

  /** One round of the loop of `main`; while the program goes on, it is as if interrupted. */
  method Round(nic: Nic, ghost n: nat, ghost s: C.Client, requests: seq<WorkRequest>, dataBuffers: array<nat>,
               wc: array<C.Completion>, count: nat) returns (exit: Exit, count': nat, ghost t: C.Client)
    requires C.Reachable(s, n) && Matches(s, nic, n) && |requests| == n && IsRing(requests, Send)
    requires s.filled == 0 && s.count == count && Ended(Interrupted, s, n, nic.polls, |nic.polls|)
    requires wc.Length == 10 && wc as object != nic.memory && wc as object != dataBuffers
    requires dataBuffers.Length == n && forall i :: 0 <= i < n ==> dataBuffers[i] == i * MSG_SIZE
    modifies nic, nic.qp, nic.memory, requests`next, wc
    ensures IsRing(requests, Send) && C.Reachable(t, n) && Matches(t, nic, n)
    ensures |nic.polls| == |old(nic.polls)| + 1 && Ended(exit, t, n, nic.polls, |nic.polls|)
    ensures exit == Interrupted ==> t.filled == 0 && t.count == count'
  {
    hide C.Reachable, Matches, IsRing, C.Enabled, C.Next, C.Fill, Polled, AllGood;
    count' := count;
    t := Interfere(nic, n, s);
    ghost var polls := nic.polls;
    var ne;
    ne, t := PollBatch(nic, n, t, wc);
    PolledMore(polls, ne);
    if ne < 0 {
      return PollFailed, count', t;
    }

    var ok;
    ok, count', t := Refill(nic, n, t, dataBuffers, wc, ne, count');
    if !ok {
      return FailedStatus, count', t;
    }

    if ne > 0 {
      t := Interfere(nic, n, t);
      ghost var batch := t.batch;
      var room: nat :| 0 <= room;
      var result;
      result, t := PostBatch(nic, n, t, requests, wc[0].wrId, ne, room);
      if result != 0 {
        RestGood(batch, room);
        return PostFailed, count', t;
      }
    }
    exit := Interrupted;
  }

  /** The loop of `main`. */
  method Loop(nic: Nic, ghost n: nat, ghost s0: C.Client, requests: seq<WorkRequest>, dataBuffers: array<nat>,
              count0: nat, rounds: nat) returns (exit: Exit, ghost s: C.Client)
    requires C.Reachable(s0, n) && Matches(s0, nic, n) && |requests| == n && IsRing(requests, Send)
    requires s0.running && s0.batch == [] && s0.filled == 0 && s0.count == count0 == n && nic.polls == []
    requires dataBuffers as object != nic.memory
    requires dataBuffers.Length == n && forall i :: 0 <= i < n ==> dataBuffers[i] == i * MSG_SIZE
    modifies nic, nic.qp, nic.memory, requests`next
    ensures IsRing(requests, Send) && C.Reachable(s, n) && Matches(s, nic, n)
    ensures Ended(exit, s, n, nic.polls, rounds)
  {
    hide C.Reachable, Matches, IsRing, C.Enabled, C.Next, C.Fill, Polled, AllGood;
    s := s0;
    var count := count0;
    var wc := new C.Completion[10](_ => C.Completion(0, false));
    NothingPolled();
    for round := 0 to rounds
      invariant C.Reachable(s, n) && Matches(s, nic, n) && IsRing(requests, Send)
      invariant forall k :: 0 <= k < n ==> dataBuffers[k] == k * MSG_SIZE
      invariant s.filled == 0 && s.count == count && |nic.polls| == round && Ended(Interrupted, s, n, nic.polls, round)
    {
      exit, count, s := Round(nic, n, s, requests, dataBuffers, wc, count);
      if exit != Interrupted {
        MoreRounds(exit, s, n, nic.polls, round + 1, rounds);
        return;
      }
    }
    exit := Interrupted;
  }
}
