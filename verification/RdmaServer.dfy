/**
 rdma_server.c: the post, poll, print, repost loop over real buffers and work requests, run against a NIC that may
 scatter datagrams into posted buffers between any two actions. Every state the program passes through is proved
 to be a reachable state of `ServerProtocol`.
*/
module RdmaServer {
  import opened Buffers
  import opened Bytes
  import opened Options
  import opened RawPacket
  import opened Ring
  import opened Rdma
  import S = ServerProtocol

  /** The receiving side of the device with its completion queue; it writes both buffers by DMA. */
  class Nic {
    const qp: QueuePair
    const headers: array<Byte>
    const memory: array<Byte>
    var completed: seq<S.Receipt>
    var broken: bool
    var polls: seq<int>   // what each poll has returned
    var accepted: seq<seq<Byte>>

    constructor (headers: array<Byte>, memory: array<Byte>)
      ensures this.headers == headers && this.memory == memory && fresh(qp) && qp.posted == []
      ensures completed == [] && !broken && polls == [] && accepted == []
    {
      this.headers, this.memory := headers, memory;
      qp := new QueuePair();
      completed, broken, polls, accepted := [], false, [], [];
    }

    /** Data goes into the entries of a list one after the other, each filled before the next. */
    method Scatter(sgList: seq<Sge>, ghost i: nat, data: seq<Byte>)
      requires headers != memory && sgList == Entries(Receive, i)
      requires i * GRH_SIZE + GRH_SIZE <= headers.Length && i * MSG_SIZE + MSG_SIZE <= memory.Length
      requires GRH_SIZE <= |data| <= GRH_SIZE + MSG_SIZE
      modifies headers, memory
      ensures headers[..] == Patch(old(headers[..]), i * GRH_SIZE, data[..GRH_SIZE])
      ensures memory[..] == Patch(old(memory[..]), i * MSG_SIZE, data[GRH_SIZE..])
    {
      hide Patch;
      var rest := data;
      for k := 0 to |sgList|
        invariant rest == if k == 0 then data else if k == 1 then data[GRH_SIZE..] else []
        invariant headers[..] == if k == 0 then old(headers[..])
                                 else Patch(old(headers[..]), i * GRH_SIZE, data[..GRH_SIZE])
        invariant memory[..] == if k < 2 then old(memory[..])
                                else Patch(old(memory[..]), i * MSG_SIZE, data[GRH_SIZE..])
      {
        var e := sgList[k];
        var take := if e.length < |rest| then e.length else |rest|;
        CopyTo(if e.region == Header then headers else memory, e.addr, rest[..take]);
        rest := rest[take..];
      }
    }

    /** `ibv_poll_cq`: an error, or up to `entries` completions in the order in which they were queued. */
    method PollCq(entries: nat, wc: array<S.Receipt>) returns (ne: int)
      requires entries <= wc.Length
      modifies this`completed, this`polls, wc
      ensures polls == old(polls) + [ne]
      ensures ne < 0 ==> completed == old(completed)
      ensures ne >= 0 ==> ne <= entries && ne <= |old(completed)|
                          && wc[..ne] == old(completed)[..ne] && completed == old(completed)[ne..]
    {
      ne := *;
      if ne < 0 || ne > entries || ne > |completed| {
        polls := polls + [-1];
        return -1;
      }
      polls := polls + [ne];
      forall i | 0 <= i < ne {
        wc[i] := completed[i];
      }
      completed := completed[ne..];
    }
  }

  method CopyTo(target: array<Byte>, offset: nat, bytes: seq<Byte>)
    requires offset + |bytes| <= target.Length
    modifies target
    ensures target[..] == Patch(old(target[..]), offset, bytes)
  {
    for i := 0 to |bytes|
      invariant forall j :: 0 <= j < i ==> target[offset + j] == bytes[j]
      invariant forall j :: 0 <= j < target.Length && !(offset <= j < offset + i) ==> target[j] == old(target[j])
    {
      target[offset + i] := bytes[i];
    }
  }

  /** Standard output. */
  class Console {
    var lines: seq<S.Report>

    constructor ()
      ensures lines == []
    {
      lines := [];
    }
  }

  /** The buffers, the device, the output and the protocol state agree. */
  ghost predicate Matches(s: S.Server, nic: Nic, console: Console, n: nat)
    reads nic, nic.qp, nic.memory, console
  {
    && nic.memory.Length == n * MSG_SIZE && nic.headers.Length == n * GRH_SIZE && nic.headers != nic.memory
    && s.slots == Slots(nic.memory[..], n)
    && nic.qp.posted == Wqes(Receive, s.posted)
    && s.completed == nic.completed && s.broken == nic.broken && s.accepted == nic.accepted
    && s.reports == console.lines
  }

  /** The fields that only the program changes. */
  ghost predicate SameProgram(s: S.Server, t: S.Server) {
    t.batch == s.batch && t.read == s.read && t.running == s.running && t.reports == s.reports
  }

  /** A datagram, header and payload, lands in the two slots of the oldest posted request and nowhere else. */
  method Arrive(nic: Nic, ghost console: Console, ghost init: seq<seq<Byte>>, ghost s: S.Server,
                grh: seq<Byte>, payload: seq<Byte>)
    returns (ghost t: S.Server)
    requires S.Reachable(s, init) && Matches(s, nic, console, |init|) && nic.qp.posted != []
    requires !nic.broken && |grh| == GRH_SIZE && |payload| <= MSG_SIZE
    modifies nic, nic.qp, nic.memory, nic.headers
    ensures S.Reachable(t, init) && Matches(t, nic, console, |init|) && SameProgram(s, t)
    ensures |nic.qp.posted| < |old(nic.qp.posted)| && nic.polls == old(nic.polls)
    ensures nic.accepted == old(nic.accepted) + [payload]
    ensures var i := |old(nic.accepted)| % |init|;
            i * GRH_SIZE + GRH_SIZE <= nic.headers.Length
            && nic.headers[..] == Patch(old(nic.headers[..]), i * GRH_SIZE, grh)
  {
    hide S.Reachable, Slots, Entries, Patch;
    S.ReachableInv(s, init);
    S.RingPositions(s);
    var wqe := nic.qp.posted[0];
    ghost var i := s.posted[0];
    ghost var before := nic.memory[..];
    SlotBounds(|init|, i);
    assert (grh + payload)[GRH_SIZE..] == payload && (grh + payload)[..GRH_SIZE] == grh;
    nic.Scatter(wqe.sgList, i, grh + payload);
    nic.qp.posted := nic.qp.posted[1..];
    nic.completed := nic.completed + [S.Receipt(wqe.wrId, true, GRH_SIZE + |payload|)];
    nic.accepted := nic.accepted + [payload];

    SlotOverwritten(before, nic.memory[..], |init|, i);
    SlotContents(before, nic.memory[..], |init|, i, payload);
    t := S.Next(s, S.Receive(payload));
    S.ReachableNext(s, init, S.Receive(payload));
  }

  lemma SlotBounds(n: nat, i: nat)
    requires i < n
    ensures i * MSG_SIZE + MSG_SIZE <= n * MSG_SIZE && i * GRH_SIZE + GRH_SIZE <= n * GRH_SIZE
  {
  }

  lemma SlotContents(before: seq<Byte>, after: seq<Byte>, n: nat, i: nat, payload: seq<Byte>)
    requires |before| == n * MSG_SIZE && i < n && |payload| <= MSG_SIZE
    requires i * MSG_SIZE + MSG_SIZE <= n * MSG_SIZE && after == Patch(before, i * MSG_SIZE, payload)
    ensures after[i * MSG_SIZE..i * MSG_SIZE + MSG_SIZE] == S.Overwrite(Slots(before, n)[i], payload)
  {
    var slot := Slots(before, n)[i];
    assert slot == before[i * MSG_SIZE..i * MSG_SIZE + MSG_SIZE];
    assert slot[|payload|..] == before[i * MSG_SIZE + |payload|..i * MSG_SIZE + MSG_SIZE];
  }

  /** An error completion: the queue pair is broken from here on and the buffer may hold anything. */
  method ArriveBroken(nic: Nic, ghost console: Console, ghost init: seq<seq<Byte>>, ghost s: S.Server,
                      junk: seq<Byte>, byteLen: nat)
    returns (ghost t: S.Server)
    requires S.Reachable(s, init) && Matches(s, nic, console, |init|) && nic.qp.posted != [] && |junk| == MSG_SIZE
    modifies nic, nic.qp, nic.memory
    ensures S.Reachable(t, init) && Matches(t, nic, console, |init|) && SameProgram(s, t)
    ensures |nic.qp.posted| < |old(nic.qp.posted)| && nic.polls == old(nic.polls)
  {
    hide S.Reachable, Slots, Entries;
    S.ReachableInv(s, init);
    S.RingPositions(s);
    var wqe := nic.qp.posted[0];
    ghost var i := s.posted[0];
    ghost var before := nic.memory[..];
    SlotBounds(|init|, i);
    CopyTo(nic.memory, wqe.wrId * MSG_SIZE, junk);
    nic.qp.posted := nic.qp.posted[1..];
    nic.completed := nic.completed + [S.Receipt(wqe.wrId, false, byteLen)];
    nic.broken := true;

    SlotOverwritten(before, nic.memory[..], |init|, i);
    assert nic.memory[..][i * MSG_SIZE..i * MSG_SIZE + MSG_SIZE] == junk;
    t := S.Next(s, S.ReceiveError(junk, byteLen));
    S.ReachableNext(s, init, S.ReceiveError(junk, byteLen));
  }

  /** Any number of datagrams and errors, at any time; datagrams that find no buffer leave no trace. */
  method Interfere(nic: Nic, ghost console: Console, ghost init: seq<seq<Byte>>, ghost s: S.Server)
    returns (ghost t: S.Server)
    requires S.Reachable(s, init) && Matches(s, nic, console, |init|)
    modifies nic, nic.qp, nic.memory, nic.headers
    ensures S.Reachable(t, init) && Matches(t, nic, console, |init|) && SameProgram(s, t)
    ensures nic.polls == old(nic.polls)
  {
    hide S.Reachable, Matches;
    t := s;
    while nic.qp.posted != []
      invariant S.Reachable(t, init) && Matches(t, nic, console, |init|) && SameProgram(s, t)
      invariant nic.polls == old(nic.polls)
      decreases |nic.qp.posted|
    {
      var grh: seq<Byte>, payload: seq<Byte> := *, *;
      if * {
        break;
      } else if !nic.broken && |grh| == GRH_SIZE && |payload| <= MSG_SIZE {
        t := Arrive(nic, console, init, t, grh, payload);
      } else {
        var byteLen: nat := *;
        var junk := seq(MSG_SIZE, i requires 0 <= i => if i < |payload| then payload[i] else 0);
        t := ArriveBroken(nic, console, init, t, junk, byteLen);
      }
    }
  }

  /** `post_recvs(start, count)` when everything polled has been printed; at first nothing needs to be. */
  method PostBatch(nic: Nic, ghost console: Console, ghost init: seq<seq<Byte>>, ghost s: S.Server,
                   requests: seq<WorkRequest>, start: nat, count: nat, room: nat)
    returns (result: int, ghost t: S.Server)
    requires S.Reachable(s, init) && Matches(s, nic, console, |init|)
    requires |requests| == |init| && IsRing(requests, Receive)
    requires s.running && s.read == |s.batch| == count > 0 && s.batch[0].wrId == start
    modifies requests`next, nic.qp
    ensures IsRing(requests, Receive)
    ensures S.Reachable(t, init) && Matches(t, nic, console, |init|)
    ensures var step := S.Repost(if count <= room then count else room);
            S.Enabled(s, step) && t == S.Next(s, step)
    ensures result == 0 <==> count <= room
    ensures if result == 0 then t.batch == [] && t.running else t.batch == s.batch[room..] && !t.running
    ensures t.read == |t.batch| && t.reports == s.reports && nic.polls == old(nic.polls)
  {
    hide S.Reachable, Slots, Entries, Window, IsRing;
    S.ReachableInv(s, init);
    S.RingPositions(s);
    var taken := if count <= room then count else room;
    result := PostRequests(requests, Receive, nic.qp, start, count, room);
    t := S.Next(s, S.Repost(taken));
    S.ReachableNext(s, init, S.Repost(taken));
    assert Wqes(Receive, s.posted) + Wqes(Receive, Window(|init|, start, count))[..taken] == Wqes(Receive, t.posted);
  }

  /** One poll, and the protocol step it is. */
  method PollBatch(nic: Nic, ghost console: Console, ghost init: seq<seq<Byte>>, ghost s: S.Server,
                   wc: array<S.Receipt>)
    returns (ne: int, ghost t: S.Server)
    requires S.Reachable(s, init) && Matches(s, nic, console, |init|) && wc.Length == 10
    requires s.running && s.batch == []
    modifies nic`completed, nic`polls, wc
    ensures S.Reachable(t, init) && Matches(t, nic, console, |init|)
    ensures nic.polls == old(nic.polls) + [ne] && t.reports == s.reports
    ensures if ne < 0 then t.batch == [] && t.read == s.read && !t.running
            else ne <= 10 && t.batch == wc[..ne] && t.read == 0 && t.running
  {
    hide S.Reachable, Slots, Wqes;
    ne := nic.PollCq(10, wc);
    if ne < 0 {
      t := S.Next(s, S.Stop);
      S.ReachableNext(s, init, S.Stop);
    } else {
      t := S.Next(s, S.Poll(ne));
      S.ReachableNext(s, init, S.Poll(ne));
    }
  }

  /** The `printf` of one completion. */
  method PrintLine(nic: Nic, console: Console, ghost init: seq<seq<Byte>>, ghost s: S.Server,
                   dataBuffers: array<nat>, wc: S.Receipt)
    returns (ghost t: S.Server)
    requires S.Reachable(s, init) && Matches(s, nic, console, |init|)
    requires s.running && s.read < |s.batch| && s.batch[s.read] == wc
    requires dataBuffers.Length == |init| && forall i :: 0 <= i < |init| ==> dataBuffers[i] == i * MSG_SIZE
    modifies console
    ensures S.Reachable(t, init) && Matches(t, nic, console, |init|)
    ensures t.batch == s.batch && t.read == s.read + 1 && t.running == wc.ok && |t.reports| == |s.reports| + 1
  {
    hide S.Reachable, Slots;
    S.ReachableInv(s, init);
    S.RingPositions(s);
    SlotBounds(|init|, wc.wrId);
    console.lines := console.lines + [S.Report(wc.wrId, nic.memory[dataBuffers[wc.wrId]], wc.byteLen, wc.ok)];
    assert nic.memory[..][wc.wrId * MSG_SIZE..wc.wrId * MSG_SIZE + MSG_SIZE][0] == nic.memory[wc.wrId * MSG_SIZE];
    t := S.Next(s, S.ReadNext);
    S.ReachableNext(s, init, S.ReadNext);
  }

  ghost predicate AllGood(wcs: seq<S.Receipt>) {
    forall k :: 0 <= k < |wcs| ==> wcs[k].ok
  }

  lemma RestGood(wcs: seq<S.Receipt>, k: nat)
    requires AllGood(wcs) && k <= |wcs|
    ensures AllGood(wcs[k..])
  {
  }

  /** The inner loop: print each completion, then look at its status; the first bad status ends it, and nothing else. */
  method PrintBatch(nic: Nic, console: Console, ghost init: seq<seq<Byte>>, ghost s: S.Server, dataBuffers: array<nat>,
                    wc: array<S.Receipt>, ne: nat) returns (ok: bool, ghost t: S.Server)
    requires S.Reachable(s, init) && Matches(s, nic, console, |init|)
    requires ne <= wc.Length && wc as object != nic.memory && wc as object != nic.headers
    requires dataBuffers as object != nic.memory && dataBuffers as object != nic.headers
    requires s.running && s.batch == wc[..ne] && s.read == 0
    requires dataBuffers.Length == |init| && forall i :: 0 <= i < |init| ==> dataBuffers[i] == i * MSG_SIZE
    modifies nic, nic.qp, nic.memory, nic.headers, console
    ensures S.Reachable(t, init) && Matches(t, nic, console, |init|)
    ensures ok <==> AllGood(s.batch)
    ensures t.batch == s.batch && t.running == ok
    ensures if ok then t.read == ne
            else 0 < t.read <= ne && !s.batch[t.read - 1].ok && AllGood(s.batch[..t.read - 1])
    ensures |t.reports| == |s.reports| + t.read && nic.polls == old(nic.polls)
  {
    hide S.Reachable, Slots;
    t := s;
    for i := 0 to ne
      invariant S.Reachable(t, init) && Matches(t, nic, console, |init|)
      invariant forall k :: 0 <= k < ne ==> wc[k] == s.batch[k]
      invariant forall k :: 0 <= k < |init| ==> dataBuffers[k] == k * MSG_SIZE
      invariant t.running && t.batch == s.batch && t.read == i
      invariant forall k :: 0 <= k < i ==> s.batch[k].ok
      invariant |t.reports| == |s.reports| + i && nic.polls == old(nic.polls)
    {
      t := Interfere(nic, console, init, t);
      t := PrintLine(nic, console, init, t, dataBuffers, wc[i]);
      if !wc[i].ok {
        return false, t;
      }
    }
    ok := true;
  }

  /**
   Each way out has its reason, and everything polled has been printed, or is what the program gave up on: by signal
   all is posted again; otherwise a poll failed, a completion had a bad status, or not all requests could be posted.
  */
  ghost predicate Ended(exit: Exit, s: S.Server, polls: seq<int>, rounds: nat) {
    && PollsTell(exit, polls, rounds)
    && |s.reports| + (|s.batch| - s.read) == Polled(polls)
    && s.running == (exit == Interrupted)
    && match exit
       case Interrupted => s.batch == []
       case PollFailed => s.batch == []
       case FailedStatus => 0 < s.read <= |s.batch| && !s.batch[s.read - 1].ok && AllGood(s.batch[..s.read - 1])
       case PostFailed => s.read == |s.batch| > 0 && AllGood(s.batch)
  }

  lemma MoreRounds(exit: Exit, s: S.Server, polls: seq<int>, rounds: nat, more: nat)
    requires Ended(exit, s, polls, rounds) && exit != Interrupted && rounds <= more
    ensures Ended(exit, s, polls, more)
  {
    hide Polled, AllGood;
  }

  /** One round of the loop of `main`; while the program goes on, it is as if interrupted. */
  method Round(nic: Nic, console: Console, ghost init: seq<seq<Byte>>, ghost s: S.Server, requests: seq<WorkRequest>,
               dataBuffers: array<nat>, wc: array<S.Receipt>) returns (exit: Exit, ghost t: S.Server)
    requires S.Reachable(s, init) && Matches(s, nic, console, |init|)
    requires |requests| == |init| && IsRing(requests, Receive)
    requires s.read == 0 && Ended(Interrupted, s, nic.polls, |nic.polls|)
    requires wc.Length == 10 && wc as object != nic.memory && wc as object != nic.headers && wc as object != dataBuffers
    requires dataBuffers as object != nic.memory && dataBuffers as object != nic.headers
    requires dataBuffers.Length == |init| && forall i :: 0 <= i < |init| ==> dataBuffers[i] == i * MSG_SIZE
    modifies nic, nic.qp, nic.memory, nic.headers, console, requests`next, wc
    ensures IsRing(requests, Receive) && S.Reachable(t, init) && Matches(t, nic, console, |init|)
    ensures |nic.polls| == |old(nic.polls)| + 1 && Ended(exit, t, nic.polls, |nic.polls|)
    ensures exit == Interrupted ==> t.read == 0
  {
    hide S.Reachable, Matches, IsRing, S.Enabled, S.Next, Polled, AllGood;
    t := Interfere(nic, console, init, s);
    ghost var polls := nic.polls;
    var ne;
    ne, t := PollBatch(nic, console, init, t, wc);
    PolledMore(polls, ne);
    if ne < 0 {
      return PollFailed, t;
    }

    var ok;
    ok, t := PrintBatch(nic, console, init, t, dataBuffers, wc, ne);
    if !ok {
      return FailedStatus, t;
    }

    if ne > 0 {
      t := Interfere(nic, console, init, t);
      ghost var batch := t.batch;
      var room: nat :| 0 <= room;
      var result;
      result, t := PostBatch(nic, console, init, t, requests, wc[0].wrId, ne, room);
      if result != 0 {
        RestGood(batch, room);
        return PostFailed, t;
      }
    }
    exit := Interrupted;
  }

  /** The loop of `main`. */
  method Loop(nic: Nic, console: Console, ghost init: seq<seq<Byte>>, ghost s0: S.Server, requests: seq<WorkRequest>,
              dataBuffers: array<nat>, rounds: nat) returns (exit: Exit, ghost s: S.Server)
    requires S.Reachable(s0, init) && Matches(s0, nic, console, |init|)
    requires |requests| == |init| && IsRing(requests, Receive)
    requires s0.running && s0.batch == [] && s0.read == 0 && s0.reports == [] && nic.polls == []
    requires dataBuffers as object != nic.memory && dataBuffers as object != nic.headers
    requires dataBuffers.Length == |init| && forall i :: 0 <= i < |init| ==> dataBuffers[i] == i * MSG_SIZE
    modifies nic, nic.qp, nic.memory, nic.headers, console, requests`next
    ensures IsRing(requests, Receive) && S.Reachable(s, init) && Matches(s, nic, console, |init|)
    ensures Ended(exit, s, nic.polls, rounds)
  {
    hide S.Reachable, Matches, IsRing, S.Enabled, S.Next, Polled, AllGood;
    s := s0;
    var wc := new S.Receipt[10](_ => S.Receipt(0, false, 0));
    NothingPolled();
    for round := 0 to rounds
      invariant S.Reachable(s, init) && Matches(s, nic, console, |init|) && IsRing(requests, Receive)
      invariant forall k :: 0 <= k < |init| ==> dataBuffers[k] == k * MSG_SIZE
      invariant s.read == 0 && |nic.polls| == round && Ended(Interrupted, s, nic.polls, round)
    {
      exit, s := Round(nic, console, init, s, requests, dataBuffers, wc);
      if exit != Interrupted {
        MoreRounds(exit, s, nic.polls, round + 1, rounds);
        return;
      }
    }
    exit := Interrupted;
  }

  /** Before anything is posted, the buffers are all the application's. */
  method Start(nic: Nic, ghost console: Console, ghost n: nat) returns (ghost s: S.Server)
    requires n > 0 && nic.memory.Length == n * MSG_SIZE && nic.headers.Length == n * GRH_SIZE
    requires nic.headers != nic.memory && console.lines == []
    requires nic.qp.posted == [] && nic.completed == [] && !nic.broken && nic.accepted == []
    requires forall k :: 0 <= k < nic.memory.Length ==> nic.memory[k] == 0
    ensures S.Reachable(s, ZeroSlots(n)) && Matches(s, nic, console, n)
    ensures s.running && s.read == |s.batch| == n && s.batch[0].wrId == 0 && s.reports == []
    ensures AllGood(s.batch)
  {
    hide S.Reachable, Slots, ZeroSlots;
    SlotsOfZeros(nic.memory[..], n);
    s := S.Init(ZeroSlots(n));
    S.InitReachable(ZeroSlots(n));
  }

  /**
   Line `i` tells about payload `i`: its slot, its size and its first byte, or for an empty payload the byte that was
   in its slot before. Only the last line may be about a failed completion instead.
  */
  ghost predicate Tells(lines: seq<S.Report>, accepted: seq<seq<Byte>>, init: seq<seq<Byte>>, i: nat)
    requires S.Buffers(init) && i < |lines|
  {
    && (lines[i].ok <==> i < |accepted|)
    && (i < |accepted| ==>
          && lines[i].wrId == i % |init| && lines[i].byteLen == GRH_SIZE + |accepted[i]|
          && lines[i].first == S.FirstByte(init, accepted, i))
    && (i >= |accepted| ==> i == |lines| - 1)
  }

  /** What the program has printed tells, line by line, about what the NIC has accepted. */
  ghost predicate TellsInOrder(lines: seq<S.Report>, accepted: seq<seq<Byte>>, init: seq<seq<Byte>>)
    requires S.Buffers(init)
  {
    forall i :: 0 <= i < |lines| ==> Tells(lines, accepted, init, i)
  }

  lemma LineTells(s: S.Server, init: seq<seq<Byte>>, i: nat)
    requires S.Buffers(init) && S.Reachable(s, init) && i < |s.reports|
    ensures Tells(s.reports, s.accepted, init, i)
  {
    hide S.Reachable, S.FirstByte;
    S.ExactlyOnce(s, init, i);
  }

  lemma ReachableTells(s: S.Server, init: seq<seq<Byte>>)
    requires S.Buffers(init) && S.Reachable(s, init)
    ensures TellsInOrder(s.reports, s.accepted, init)
  {
    hide S.Reachable, S.Buffers, Tells;
    forall i | 0 <= i < |s.reports| ensures Tells(s.reports, s.accepted, init, i) {
      LineTells(s, init, i);
    }
  }

  /** `main`, interrupted after `rounds` rounds at the latest. */
  method RunServer(n: nat, rounds: nat)
    returns (exit: Exit, nic: Nic, console: Console, requests: seq<WorkRequest>, ghost s: S.Server)
    requires n > 0
    ensures |requests| == n && IsRing(requests, Receive)
    ensures S.Reachable(s, ZeroSlots(n)) && Matches(s, nic, console, n)
    ensures TellsInOrder(console.lines, nic.accepted, ZeroSlots(n))
    ensures Ended(exit, s, nic.polls, rounds)
    ensures exit == Interrupted ==> S.Ids(nic.completed) + s.posted == Window(n, |console.lines|, n)
  {
    hide S.Reachable, Slots, ZeroSlots, Entries, Window, IsRing, TellsInOrder, Wqes, S.Enabled, S.Next, Polled, AllGood;
    var headerBuffers, dataBuffers, headers, memory;
    requests, headerBuffers, dataBuffers, headers, memory := InitServer(n);
    nic := new Nic(headers, memory);
    console := new Console();
    s := Start(nic, console, n);
    ghost var init, batch := ZeroSlots(n), s.batch;

    var room: nat :| 0 <= room;
    var result;
    result, s := PostBatch(nic, console, init, s, requests, 0, n, room);
    NothingPolled();
    if result != 0 {
      RestGood(batch, room);
      exit := PostFailed;
    } else {
      exit, s := Loop(nic, console, init, s, requests, dataBuffers, rounds);
    }
    ReachableTells(s, init);
    if exit == Interrupted {
      S.LoopHeadOrder(s, init);
    }
  }
}
