/**
 The server of rdma_server.c and its NIC as a state machine: receives are posted, the NIC fills the oldest posted
 buffer with each datagram or drops the datagram, the application polls, prints and reposts.
*/
module ServerProtocol {
  import opened Bytes
  import opened Options
  import opened RawPacket
  import opened Ring

  /** A work completion; `byteLen` counts the 40-byte global routing header. */
  datatype Receipt = Receipt(wrId: nat, ok: bool, byteLen: nat)

  /** One printed line: request index, first payload byte, size; and the status looked at after printing. */
  datatype Report = Report(wrId: nat, first: Byte, byteLen: nat, ok: bool)

  datatype Server = Server(
    slots: seq<seq<Byte>>,       // receive buffers
    batch: seq<Receipt>,         // polled requests that are not posted again yet
    read: nat,                   // how many of them have been printed
    running: bool,               // not yet on the way to clean-up
    reports: seq<Report>,        // everything printed
    posted: seq<nat>,            // receive queue
    completed: seq<Receipt>,     // completion queue
    broken: bool,                // the queue pair has entered its error state
    accepted: seq<seq<Byte>>)    // payloads the NIC has put into buffers

  datatype Step =
    | ReadNext                          // one iteration of the checking loop
    | Repost(count: nat)                // post_recvs; fewer accepted than asked for is a failure
    | Poll(k: nat)
    | Stop                              // signal or poll error
    | Receive(payload: seq<Byte>)       // NIC: a datagram into the oldest posted buffer
    | ReceiveError(junk: seq<Byte>, byteLen: nat) // NIC: an error completion; the buffer may hold anything

  function Ids(s: seq<Receipt>): (t: seq<nat>)
    ensures |t| == |s|
    ensures forall k :: 0 <= k < |s| ==> t[k] == s[k].wrId
  {
    seq(|s|, k requires 0 <= k < |s| => s[k].wrId)
  }

  /** The receive buffers at the start: at least one, each of full size, whatever they hold. */
  ghost predicate Buffers(slots: seq<seq<Byte>>) {
    |slots| > 0 && forall i :: 0 <= i < |slots| ==> |slots[i]| == MSG_SIZE
  }

  /** Before the first post every slot is the application's, with nothing left to read. */
  function Init(slots: seq<seq<Byte>>): Server {
    var n := |slots|;
    Server(slots, seq(n, k requires 0 <= k < n => Receipt(k, true, 0)), n, true, [], [], [], false, [])
  }

  /** A payload at the front of a buffer; what lies behind it stays. */
  function Overwrite(slot: seq<Byte>, payload: seq<Byte>): (t: seq<Byte>)
    requires |payload| <= |slot|
    ensures |t| == |slot| && t[..|payload|] == payload
  {
    payload + slot[|payload|..]
  }

  predicate Enabled(s: Server, step: Step) {
    match step
    case ReadNext => s.running && s.read < |s.batch| && s.batch[s.read].wrId < |s.slots|
                     && 0 < |s.slots[s.batch[s.read].wrId]|
    case Repost(count) => s.running && s.read == |s.batch| > 0 && count <= |s.batch| && |s.slots| > 0
    case Poll(k) => s.running && s.batch == [] && k <= 10 && k <= |s.completed|
    case Stop => s.running && s.batch == []
    case Receive(payload) => !s.broken && s.posted != [] && s.posted[0] < |s.slots|
                             && |payload| <= |s.slots[s.posted[0]]|
    case ReceiveError(junk, _) => s.posted != [] && s.posted[0] < |s.slots| && |junk| == |s.slots[s.posted[0]]|
  }

  /** What one step does. A completion is printed before its status is looked at. */
  function Next(s: Server, step: Step): Server
    requires Enabled(s, step)
  {
    match step
    case ReadNext =>
      var wc := s.batch[s.read];
      s.(read := s.read + 1, reports := s.reports + [Report(wc.wrId, s.slots[wc.wrId][0], wc.byteLen, wc.ok)],
         running := wc.ok)
    case Repost(count) =>
      var walk := Window(|s.slots|, s.batch[0].wrId, |s.batch|);
      s.(posted := s.posted + walk[..count], batch := s.batch[count..], read := s.read - count,
         running := count == |s.batch|)
    case Poll(k) => s.(batch := s.completed[..k], read := 0, completed := s.completed[k..])
    case Stop => s.(running := false)
    case Receive(payload) =>
      s.(slots := s.slots[s.posted[0] := Overwrite(s.slots[s.posted[0]], payload)], posted := s.posted[1..],
         completed := s.completed + [Receipt(s.posted[0], true, GRH_SIZE + |payload|)],
         accepted := s.accepted + [payload])
    case ReceiveError(junk, byteLen) =>
      s.(slots := s.slots[s.posted[0] := junk], posted := s.posted[1..],
         completed := s.completed + [Receipt(s.posted[0], false, byteLen)], broken := true)
  }

  /** The state after a run, if every step of it was possible. */
  function Exec(s: Server, steps: seq<Step>): Option<Server> {
    if steps == [] then Some(s)
    else
      var before := Exec(s, steps[..|steps| - 1]);
      if before.None? || !Enabled(before.value, steps[|steps| - 1]) then None
      else Some(Next(before.value, steps[|steps| - 1]))
  }

  // ----- the invariant -----

  /** How many receives have been posted since the start. */
  function Posts(s: Server): int {
    |s.reports| + |s.slots| - s.read
  }

  /** How many completions the NIC has produced; completion number i is for slot i modulo the ring size. */
  function Completions(s: Server): int {
    Posts(s) - |s.posted|
  }

  ghost predicate RingOrder(s: Server) {
    && |s.slots| > 0 && s.read <= |s.batch| && 0 <= Posts(s)
    && Ids(s.batch) + Ids(s.completed) + s.posted == Window(|s.slots|, Posts(s), |s.slots|)
  }

  /** Completion number `i` is successful exactly if it belongs to accepted payload `i`, whose size it tells. */
  ghost predicate Describes(accepted: seq<seq<Byte>>, wc: Receipt, i: int) {
    && (wc.ok <==> i < |accepted|)
    && (0 <= i < |accepted| ==> wc.byteLen == GRH_SIZE + |accepted[i]|)
  }

  /** A stretch of completions whose first one has number `first`. */
  ghost predicate Described(accepted: seq<seq<Byte>>, wcs: seq<Receipt>, first: int) {
    forall k :: 0 <= k < |wcs| ==> Describes(accepted, wcs[k], first + k)
  }

  ghost predicate Statuses(s: Server) {
    && s.read <= |s.batch| && |s.accepted| <= Completions(s)
    && (!s.broken ==> |s.accepted| == Completions(s))
    && Described(s.accepted, s.batch[s.read..], |s.reports|)
    && Described(s.accepted, s.completed, Completions(s) - |s.completed|)
  }

  lemma DescribedParts(accepted: seq<seq<Byte>>, wcs: seq<Receipt>, first: int, k: nat)
    requires k <= |wcs| && Described(accepted, wcs, first)
    ensures Described(accepted, wcs[..k], first) && Described(accepted, wcs[k..], first + k)
  {
    hide Describes;
    forall j | 0 <= j < |wcs| - k ensures Describes(accepted, wcs[k..][j], first + k + j) {
      assert Describes(accepted, wcs[k + j], first + (k + j));
    }
  }

  /** A new payload changes nothing for completions with smaller numbers. */
  lemma DescribedStill(accepted: seq<seq<Byte>>, more: seq<seq<Byte>>, wcs: seq<Receipt>, first: int)
    requires Described(accepted, wcs, first) && accepted <= more
    requires accepted == more || first + |wcs| <= |accepted|
    ensures Described(more, wcs, first)
  {
    forall k | 0 <= k < |wcs| ensures Describes(more, wcs[k], first + k) {
      assert Describes(accepted, wcs[k], first + k);
    }
  }

  lemma DescribedAppend(accepted: seq<seq<Byte>>, wcs: seq<Receipt>, wc: Receipt, first: int)
    requires Described(accepted, wcs, first) && Describes(accepted, wc, first + |wcs|)
    ensures Described(accepted, wcs + [wc], first)
  {
  }

  function SlotOf(s: Server, i: nat): nat
    requires |s.slots| > 0
  {
    i % |s.slots|
  }

  predicate Holds(slot: seq<Byte>, payload: seq<Byte>) {
    |payload| <= |slot| && slot[..|payload|] == payload
  }

  /** Every accepted payload that has not been printed yet is still in its slot. */
  ghost predicate Contents(s: Server) {
    && |s.slots| > 0
    && forall i :: |s.reports| <= i < |s.accepted| ==> Holds(s.slots[SlotOf(s, i)], s.accepted[i])
  }

  /** What a printed line must say about payload `i`; `Firsts` is about the byte it shows. */
  ghost predicate Reports(s: Server, r: Report, i: nat)
    requires |s.slots| > 0 && i < |s.accepted|
  {
    r.ok && r.wrId == SlotOf(s, i) && r.byteLen == GRH_SIZE + |s.accepted[i]|
  }

  /** The printed lines are the accepted payloads in order; only the very last line may be a failed completion. */
  ghost predicate Printed(s: Server) {
    && |s.slots| > 0
    && (forall i :: 0 <= i < |s.reports| && i < |s.accepted| ==> Reports(s, s.reports[i], i))
    && (forall i :: |s.accepted| <= i < |s.reports| ==> !s.reports[i].ok)
    && (s.running ==> |s.reports| <= |s.accepted|)
    && |s.reports| <= |s.accepted| + 1
  }

  ghost predicate Inv(s: Server) {
    RingOrder(s) && Buffers(s.slots) && Statuses(s) && Contents(s) && Printed(s)
  }

  lemma RingPositions(s: Server)
    requires RingOrder(s)
    ensures |s.batch| + |s.completed| + |s.posted| == |s.slots|
    ensures Completions(s) == |s.reports| + (|s.batch| - s.read) + |s.completed|
    ensures s.read < |s.batch| ==> s.batch[s.read].wrId == SlotOf(s, |s.reports|) < |s.slots|
    ensures s.posted != [] ==> s.posted[0] == SlotOf(s, Completions(s)) < |s.slots|
    ensures s.batch != [] ==> s.batch[0].wrId == Posts(s) % |s.slots|
  {
    var n, p := |s.slots|, Posts(s);
    var ids := Ids(s.batch) + Ids(s.completed) + s.posted;
    assert |ids| == n;
    if s.batch != [] {
      assert ids[0] == s.batch[0].wrId;
    }
    if s.read < |s.batch| {
      assert ids[s.read] == s.batch[s.read].wrId;
      ModTurn(|s.reports|, n);
      assert p + s.read == |s.reports| + n;
    }
    if s.posted != [] {
      assert ids[n - |s.posted|] == s.posted[0];
      ModTurn(p - |s.posted|, n);
      assert p + n - |s.posted| == p - |s.posted| + n;
    }
  }

  lemma InitInv(slots: seq<seq<Byte>>)
    requires Buffers(slots)
    ensures Inv(Init(slots))
  {
    var s, n := Init(slots), |slots|;
    assert Ids(s.batch) == Window(n, 0, n);
    assert Ids(s.batch) + Ids(s.completed) + s.posted == Window(n, 0, n);
  }

  lemma ReadKeepsStatuses(s: Server)
    requires Statuses(s) && Enabled(s, ReadNext)
    ensures Statuses(Next(s, ReadNext))
  {
    hide Described;
    DescribedParts(s.accepted, s.batch[s.read..], |s.reports|, 1);
    assert s.batch[s.read..][1..] == s.batch[s.read + 1..];
  }

  /** The line just printed, and the earlier ones. */
  lemma ReadKeepsPrinted(s: Server)
    requires RingOrder(s) && Statuses(s) && Printed(s) && Enabled(s, ReadNext)
    ensures Printed(Next(s, ReadNext))
  {
    hide Ids, Window, RingOrder;
    RingPositions(s);
    var t, i := Next(s, ReadNext), |s.reports|;
    assert Describes(s.accepted, s.batch[s.read..][0], i + 0);
    forall j | 0 <= j < |t.reports| && j < |t.accepted| ensures Reports(t, t.reports[j], j) {
      if j < i { assert Reports(s, s.reports[j], j); }
    }
  }

  lemma ReadKeepsContents(s: Server)
    requires Contents(s) && Enabled(s, ReadNext)
    ensures Contents(Next(s, ReadNext))
  {
    var t := Next(s, ReadNext);
    forall i | |t.reports| <= i < |t.accepted| ensures Holds(t.slots[SlotOf(t, i)], t.accepted[i]) {
      assert Holds(s.slots[SlotOf(s, i)], s.accepted[i]);
    }
  }

  lemma ReadKeepsInv(s: Server)
    requires Inv(s) && Enabled(s, ReadNext)
    ensures Inv(Next(s, ReadNext))
  {
    hide Ids, Window, Statuses, Contents, Printed;
    ReadKeepsStatuses(s);
    ReadKeepsPrinted(s);
    ReadKeepsContents(s);
  }

  lemma RepostKeepsOrder(s: Server, count: nat)
    requires RingOrder(s) && Enabled(s, Repost(count))
    ensures RingOrder(Next(s, Repost(count))) && Completions(Next(s, Repost(count))) == Completions(s)
  {
    hide Window;
    RingPositions(s);
    var t := Next(s, Repost(count));
    var n, p := |s.slots|, Posts(s);
    var walk := Window(n, s.batch[0].wrId, |s.batch|);
    WindowFromSlot(n, p, |s.batch|);
    var ids := Ids(s.batch) + Ids(s.completed) + s.posted;
    Rotate(n, p, ids, count);
    WindowSplit(n, p, count, |s.batch| - count);
    assert walk[..count] == ids[..count];
    assert ids[count..] == Ids(t.batch) + Ids(t.completed) + s.posted;
    assert Ids(t.batch) + Ids(t.completed) + t.posted == ids[count..] + ids[..count];
  }

  lemma RepostKeepsInv(s: Server, count: nat)
    requires Inv(s) && Enabled(s, Repost(count))
    ensures Inv(Next(s, Repost(count)))
  {
    hide Contents, Printed, Described, RingOrder, Window, Ids;
    RepostKeepsOrder(s, count);
    KeepPrinted(s, Next(s, Repost(count)));
    var t := Next(s, Repost(count));
    assert t.batch[t.read..] == s.batch[s.read..];
  }

  /** Steps that touch neither buffers nor reports nor accepted payloads keep what is said about them. */
  lemma KeepPrinted(s: Server, t: Server)
    requires Contents(s) && Printed(s)
    requires t.slots == s.slots && t.reports == s.reports && t.accepted == s.accepted && (t.running ==> s.running)
    ensures Contents(t) && Printed(t)
  {
    forall i | |t.reports| <= i < |t.accepted| ensures Holds(t.slots[SlotOf(t, i)], t.accepted[i]) {
      assert Holds(s.slots[SlotOf(s, i)], s.accepted[i]);
    }
    forall i | 0 <= i < |t.reports| && i < |t.accepted| ensures Reports(t, t.reports[i], i) {
      assert Reports(s, s.reports[i], i);
    }
  }

  lemma PollKeepsOrder(s: Server, k: nat)
    requires RingOrder(s) && Enabled(s, Poll(k))
    ensures RingOrder(Next(s, Poll(k))) && Completions(Next(s, Poll(k))) == Completions(s)
  {
    var t := Next(s, Poll(k));
    assert Ids(t.batch) + Ids(t.completed) == Ids(s.batch) + Ids(s.completed);
  }

  lemma PollKeepsStatuses(s: Server, k: nat)
    requires RingOrder(s) && Statuses(s) && Enabled(s, Poll(k))
    ensures Statuses(Next(s, Poll(k)))
  {
    hide Ids, Window, RingOrder, Described;
    RingPositions(s);
    DescribedParts(s.accepted, s.completed, Completions(s) - |s.completed|, k);
    assert s.completed[..k][0..] == s.completed[..k];
  }

  lemma PollKeepsInv(s: Server, k: nat)
    requires Inv(s) && Enabled(s, Poll(k))
    ensures Inv(Next(s, Poll(k)))
  {
    hide RingOrder, Statuses, Contents, Printed;
    PollKeepsOrder(s, k);
    PollKeepsStatuses(s, k);
    KeepPrinted(s, Next(s, Poll(k)));
  }

  lemma StopKeepsInv(s: Server)
    requires Inv(s) && Enabled(s, Stop)
    ensures Inv(Next(s, Stop))
  {
    hide Contents, Printed, Described, Ids, Window;
    KeepPrinted(s, Next(s, Stop));
  }

  /** The NIC moves the head of the receive queue to the end of the completion queue. */
  lemma CompletionKeepsOrder(s: Server, t: Server, wc: Receipt)
    requires RingOrder(s) && s.posted != [] && wc.wrId == s.posted[0]
    requires t.batch == s.batch && t.read == s.read && t.reports == s.reports && |t.slots| == |s.slots|
    requires t.posted == s.posted[1..] && t.completed == s.completed + [wc]
    ensures RingOrder(t) && Completions(t) == Completions(s) + 1
  {
    assert Ids(t.completed) + t.posted == Ids(s.completed) + s.posted;
    assert Ids(t.batch) + Ids(t.completed) + t.posted == Ids(s.batch) + (Ids(s.completed) + s.posted);
    assert Ids(s.batch) + (Ids(s.completed) + s.posted) == Ids(s.batch) + Ids(s.completed) + s.posted;
  }

  /** A new completion leaves what is known about the earlier ones. */
  lemma CompletionKeepsStatuses(s: Server, t: Server, wc: Receipt)
    requires Statuses(s) && Completions(t) == Completions(s) + 1
    requires t.batch == s.batch && t.read == s.read && t.reports == s.reports
    requires t.completed == s.completed + [wc] && Describes(t.accepted, wc, Completions(s))
    requires s.accepted <= t.accepted && Completions(s) == |s.reports| + (|s.batch| - s.read) + |s.completed|
    requires if t.broken then t.accepted == s.accepted else |t.accepted| == |s.accepted| + 1 && !s.broken
    ensures Statuses(t)
  {
    hide Described;
    var first := Completions(s) - |s.completed|;
    DescribedStill(s.accepted, t.accepted, s.batch[s.read..], |s.reports|);
    DescribedStill(s.accepted, t.accepted, s.completed, first);
    DescribedAppend(t.accepted, s.completed, wc, first);
  }

  /** Writing into the oldest posted slot, and accepting a payload if any, keeps what is unread and what is printed. */
  lemma CompletionKeepsPrinted(s: Server, t: Server, c: nat, slot: seq<Byte>)
    requires Contents(s) && Printed(s) && |s.accepted| <= c < |s.reports| + |s.slots|
    requires t.slots == s.slots[SlotOf(s, c) := slot] && t.reports == s.reports && t.running == s.running
    requires t.accepted == s.accepted || (|s.accepted| == c && |t.accepted| == c + 1 && Holds(slot, t.accepted[c]))
    requires s.accepted <= t.accepted && |s.reports| <= c
    ensures Contents(t) && Printed(t)
  {
    forall i | |t.reports| <= i < |t.accepted| ensures Holds(t.slots[SlotOf(t, i)], t.accepted[i]) {
      if i < c {
        ModDistinct(i, c, |s.slots|);
        assert Holds(s.slots[SlotOf(s, i)], s.accepted[i]);
      }
    }
    forall i | 0 <= i < |t.reports| && i < |t.accepted| ensures Reports(t, t.reports[i], i) {
      assert i < c;
      assert i < |s.accepted|;
      assert Reports(s, s.reports[i], i);
    }
  }

  lemma ReceiveKeepsInv(s: Server, payload: seq<Byte>)
    requires Inv(s) && Enabled(s, Receive(payload))
    ensures Inv(Next(s, Receive(payload)))
  {
    RingPositions(s);
    var t := Next(s, Receive(payload));
    var wc := Receipt(s.posted[0], true, GRH_SIZE + |payload|);
    CompletionKeepsOrder(s, t, wc);
    CompletionKeepsStatuses(s, t, wc);
    hide RingOrder, Statuses, Contents, Printed;
    CompletionKeepsPrinted(s, t, Completions(s), Overwrite(s.slots[s.posted[0]], payload));
  }

  lemma ReceiveErrorKeepsInv(s: Server, junk: seq<Byte>, byteLen: nat)
    requires Inv(s) && Enabled(s, ReceiveError(junk, byteLen))
    ensures Inv(Next(s, ReceiveError(junk, byteLen)))
  {
    RingPositions(s);
    var t := Next(s, ReceiveError(junk, byteLen));
    var wc := Receipt(s.posted[0], false, byteLen);
    CompletionKeepsOrder(s, t, wc);
    CompletionKeepsStatuses(s, t, wc);
    hide RingOrder, Statuses, Contents, Printed;
    CompletionKeepsPrinted(s, t, Completions(s), junk);
  }

  lemma StepKeepsInv(s: Server, step: Step)
    requires Inv(s) && Enabled(s, step)
    ensures Inv(Next(s, step))
  {
    match step
    case ReadNext => ReadKeepsInv(s);
    case Repost(count) => RepostKeepsInv(s, count);
    case Poll(k) => PollKeepsInv(s, k);
    case Stop => StopKeepsInv(s);
    case Receive(payload) => ReceiveKeepsInv(s, payload);
    case ReceiveError(junk, byteLen) => ReceiveErrorKeepsInv(s, junk, byteLen);
  }

  // ----- the byte a line shows -----

  /**
   The byte at the start of payload `i`'s slot once the payload is in: its own first byte or, if it is empty, what
   the slot's previous payload left there. Negative `i` stand for the initial contents.
  */
  function FirstByte(init: seq<seq<Byte>>, accepted: seq<seq<Byte>>, i: int): Byte
    requires Buffers(init) && -|init| <= i < |accepted|
    decreases i + |init|
  {
    if i < 0 then init[i + |init|][0]
    else if accepted[i] != [] then accepted[i][0]
    else FirstByte(init, accepted, i - |init|)
  }

  lemma {:induction false} FirstByteOfPrefix(init: seq<seq<Byte>>, accepted: seq<seq<Byte>>, more: seq<seq<Byte>>,
                                             i: int)
    requires Buffers(init) && -|init| <= i < |accepted| && accepted <= more
    ensures FirstByte(init, more, i) == FirstByte(init, accepted, i)
    decreases i + |init|
  {
    if i >= 0 && accepted[i] == [] {
      FirstByteOfPrefix(init, accepted, more, i - |init|);
    }
  }

  /** From which payload on every slot's first byte is known: one turn, or after an error what is still unread. */
  function Known(s: Server): int {
    if s.broken then |s.reports| else |s.accepted| - |s.slots|
  }

  ghost predicate FirstKept(slots: seq<seq<Byte>>, init: seq<seq<Byte>>, accepted: seq<seq<Byte>>, i: int)
    requires Buffers(init) && Buffers(slots) && |slots| == |init| && -|init| <= i < |accepted|
  {
    slots[(i + |init|) % |init|][0] == FirstByte(init, accepted, i)
  }

  /** Slots and printed lines show the first bytes that `FirstByte` tells. */
  ghost predicate Firsts(s: Server, init: seq<seq<Byte>>)
    requires Buffers(init)
  {
    && Buffers(s.slots) && |s.slots| == |init| && -|init| <= Known(s)
    && (forall i :: Known(s) <= i < |s.accepted| ==> FirstKept(s.slots, init, s.accepted, i))
    && (forall i :: 0 <= i < |s.reports| && i < |s.accepted| ==>
          s.reports[i].first == FirstByte(init, s.accepted, i))
  }

  /** Writing the slot of use `w` leaves the first bytes of the uses less than one turn before it. */
  lemma OtherFirstKept(slots: seq<seq<Byte>>, init: seq<seq<Byte>>, accepted: seq<seq<Byte>>, more: seq<seq<Byte>>,
                       i: int, w: nat, slot: seq<Byte>)
    requires Buffers(init) && Buffers(slots) && |slots| == |init| && |slot| == MSG_SIZE && accepted <= more
    requires -|init| <= i < |accepted| && w - |init| < i < w
    requires FirstKept(slots, init, accepted, i)
    ensures FirstKept(slots[w % |init| := slot], init, more, i)
  {
    hide FirstByte;
    ModTurn(w, |init|);
    ModDistinct(i + |init|, w + |init|, |init|);
    FirstByteOfPrefix(init, accepted, more, i);
  }

  /** An accepted payload determines its slot's first byte, unless it is empty and leaves the old one. */
  lemma NewFirstKept(slots: seq<seq<Byte>>, init: seq<seq<Byte>>, accepted: seq<seq<Byte>>, payload: seq<Byte>)
    requires Buffers(init) && Buffers(slots) && |slots| == |init| && |payload| <= MSG_SIZE
    requires FirstKept(slots, init, accepted, |accepted| - |init|)
    ensures var c, n := |accepted|, |init|;
            FirstKept(slots[c % n := Overwrite(slots[c % n], payload)], init, accepted + [payload], c)
  {
    var c, more := |accepted|, accepted + [payload];
    ModTurn(c, |init|);
    FirstByteOfPrefix(init, accepted, more, c - |init|);
    assert c - |init| + |init| == c;
  }

  /** Counts that follow from the invariant. */
  lemma CompletionBounds(s: Server)
    requires RingOrder(s) && Statuses(s)
    ensures |s.accepted| <= Completions(s) && (!s.broken ==> |s.accepted| == Completions(s))
    ensures |s.reports| <= Completions(s) <= |s.reports| + |s.slots| - |s.posted|
  {
    hide Described, Ids, Window;
    RingPositions(s);
  }

  lemma InitFirsts(init: seq<seq<Byte>>)
    requires Buffers(init)
    ensures Firsts(Init(init), init)
  {
    var n := |init|;
    forall i | -n <= i < 0 ensures FirstKept(init, init, [], i) {
      assert (i + n) % n == i + n by { ModUnique(i + n, n, 0, i + n); }
    }
  }

  lemma ReadKeepsFirsts(s: Server, init: seq<seq<Byte>>)
    requires Buffers(init) && RingOrder(s) && Statuses(s) && Firsts(s, init) && Enabled(s, ReadNext)
    ensures Firsts(Next(s, ReadNext), init)
  {
    hide FirstByte, Statuses, Ids, Window;
    RingPositions(s);
    CompletionBounds(s);
    var c := |s.reports|;
    if c < |s.accepted| {
      assert FirstKept(s.slots, init, s.accepted, c);
      ModTurn(c, |init|);
    }
  }

  lemma ReceiveKeepsFirsts(s: Server, init: seq<seq<Byte>>, payload: seq<Byte>)
    requires Buffers(init) && RingOrder(s) && Statuses(s) && Firsts(s, init) && Enabled(s, Receive(payload))
    ensures Firsts(Next(s, Receive(payload)), init)
  {
    hide FirstByte, FirstKept, Statuses, Ids, Window;
    RingPositions(s);
    CompletionBounds(s);
    var t, c := Next(s, Receive(payload)), |s.accepted|;
    var slot := Overwrite(s.slots[s.posted[0]], payload);
    forall i | Known(t) <= i < |t.accepted| ensures FirstKept(t.slots, init, t.accepted, i) {
      if i < c {
        OtherFirstKept(s.slots, init, s.accepted, t.accepted, i, c, slot);
      } else {
        NewFirstKept(s.slots, init, s.accepted, payload);
      }
    }
    forall i | 0 <= i < |t.reports| && i < |t.accepted|
      ensures t.reports[i].first == FirstByte(init, t.accepted, i)
    {
      FirstByteOfPrefix(init, s.accepted, t.accepted, i);
    }
  }

  lemma ReceiveErrorKeepsFirsts(s: Server, init: seq<seq<Byte>>, junk: seq<Byte>, byteLen: nat)
    requires Buffers(init) && RingOrder(s) && Statuses(s) && Firsts(s, init) && Enabled(s, ReceiveError(junk, byteLen))
    ensures Firsts(Next(s, ReceiveError(junk, byteLen)), init)
  {
    hide FirstByte, FirstKept, Statuses, Ids, Window;
    RingPositions(s);
    CompletionBounds(s);
    var t := Next(s, ReceiveError(junk, byteLen));
    forall i | Known(t) <= i < |t.accepted| ensures FirstKept(t.slots, init, t.accepted, i) {
      OtherFirstKept(s.slots, init, s.accepted, t.accepted, i, Completions(s), junk);
    }
  }

  lemma StepKeepsFirsts(s: Server, init: seq<seq<Byte>>, step: Step)
    requires Buffers(init) && Inv(s) && Firsts(s, init) && Enabled(s, step)
    ensures Firsts(Next(s, step), init)
  {
    hide RingOrder, Statuses, Contents, Printed, FirstKept, FirstByte;
    match step
    case ReadNext => ReadKeepsFirsts(s, init);
    case Repost(_) =>
    case Poll(_) =>
    case Stop =>
    case Receive(payload) => ReceiveKeepsFirsts(s, init, payload);
    case ReceiveError(junk, byteLen) => ReceiveErrorKeepsFirsts(s, init, junk, byteLen);
  }

  // ----- runs -----

  /** Every state of every run satisfies the invariant. */
  lemma {:induction false} RunInv(init: seq<seq<Byte>>, steps: seq<Step>)
    requires Buffers(init) && Exec(Init(init), steps).Some?
    ensures var s := Exec(Init(init), steps).value;
            Inv(s) && |s.slots| == |init| && Firsts(s, init)
  {
    hide Inv, Firsts, Enabled, Next;
    if steps == [] {
      InitInv(init);
      InitFirsts(init);
    } else {
      var before, step := Exec(Init(init), steps[..|steps| - 1]).value, steps[|steps| - 1];
      RunInv(init, steps[..|steps| - 1]);
      StepKeepsInv(before, step);
      StepKeepsFirsts(before, init, step);
      SameSlots(Next(before, step), init);
    }
  }

  lemma SameSlots(s: Server, init: seq<seq<Byte>>)
    requires Buffers(init) && Firsts(s, init)
    ensures |s.slots| == |init|
  {
  }

  ghost predicate Reachable(s: Server, init: seq<seq<Byte>>) {
    Buffers(init) && exists steps: seq<Step> :: Exec(Init(init), steps) == Some(s)
  }

  lemma ReachableInv(s: Server, init: seq<seq<Byte>>)
    requires Reachable(s, init)
    ensures Inv(s) && |s.slots| == |init| && Firsts(s, init)
  {
    hide Inv, Firsts, Buffers;
    var steps: seq<Step> :| Exec(Init(init), steps) == Some(s);
    RunInv(init, steps);
  }

  lemma InitReachable(init: seq<seq<Byte>>)
    requires Buffers(init)
    ensures Reachable(Init(init), init)
  {
    assert Exec(Init(init), []) == Some(Init(init));
  }

  lemma ReachableNext(s: Server, init: seq<seq<Byte>>, step: Step)
    requires Reachable(s, init) && Enabled(s, step)
    ensures Reachable(Next(s, step), init)
  {
    hide Enabled, Next, Buffers;
    var steps: seq<Step> :| Exec(Init(init), steps) == Some(s);
    var longer := steps + [step];
    assert longer[..|longer| - 1] == steps;
    assert Exec(Init(init), longer) == Some(Next(s, step));
  }

  // ----- main results -----

  lemma HeadOrder(s: Server)
    requires RingOrder(s) && s.batch == []
    ensures Ids(s.completed) + s.posted == Window(|s.slots|, |s.reports|, |s.slots|)
  {
    hide Window;
    assert Ids(s.batch) + Ids(s.completed) + s.posted == Ids(s.completed) + s.posted;
    WindowTurn(|s.slots|, |s.reports|, |s.slots|);
  }

  /** At each loop head every slot is in exactly one queue, in ring order. */
  lemma LoopHeadOrder(s: Server, init: seq<seq<Byte>>)
    requires Reachable(s, init) && s.batch == []
    ensures Ids(s.completed) + s.posted == Window(|init|, |s.reports|, |init|)
  {
    hide Reachable, Statuses, Contents, Printed, Firsts, RingOrder, Window;
    ReachableInv(s, init);
    HeadOrder(s);
  }

  /**
   Queues of the ring's size suffice: what is polled can always be posted again, and every posted request can
   complete without overflowing the completion queue.
  */
  lemma QueuesSuffice(s: Server, init: seq<seq<Byte>>)
    requires Reachable(s, init)
    ensures |s.posted| + |s.batch| <= |init| && |s.completed| + |s.posted| <= |init|
  {
    hide Reachable, Statuses, Contents, Printed, Firsts, RingOrder;
    ReachableInv(s, init);
    RingPositions(s);
  }

  /**
   Exactly-once delivery: the i-th printed line is about the i-th accepted payload, found in slot i mod n with its
   size; nothing is printed twice or skipped. It shows the payload's own first byte exactly if the size tells that
   there is one; after an empty payload it shows what `FirstByte` says (see `StaleByte`).
  */
  lemma ExactlyOnce(s: Server, init: seq<seq<Byte>>, i: nat)
    requires Reachable(s, init) && i < |s.reports|
    ensures s.reports[i].ok <==> i < |s.accepted|
    ensures i < |s.accepted| ==>
              var r := s.reports[i];
              && r.wrId == i % |init| && r.byteLen == GRH_SIZE + |s.accepted[i]|
              && r.first == FirstByte(init, s.accepted, i)
              && (r.byteLen > GRH_SIZE ==> r.first == s.accepted[i][0])
    ensures i >= |s.accepted| ==> i == |s.reports| - 1 && !s.running
  {
    hide Reachable, RingOrder, Statuses, Contents, FirstKept;
    ReachableInv(s, init);
    if i < |s.accepted| { assert Reports(s, s.reports[i], i); }
  }

  /**
   What `FirstByte` says without recursion: the first byte of the latest non-empty payload accepted into the slot
   up to number `i`, or the slot's initial first byte if there is none.
  */
  lemma {:induction false} FirstByteIsLatest(init: seq<seq<Byte>>, accepted: seq<seq<Byte>>, i: nat) returns (k: int)
    requires Buffers(init) && i < |accepted|
    ensures -|init| <= k <= i && (k + |init|) % |init| == i % |init|
    ensures k >= 0 ==> accepted[k] != [] && FirstByte(init, accepted, i) == accepted[k][0]
    ensures k < 0 ==> FirstByte(init, accepted, i) == init[i % |init|][0]
    ensures forall j :: 0 <= j <= i && j > k && j % |init| == i % |init| ==> accepted[j] == []
  {
    var n := |init|;
    ModTurn(i, n);
    if accepted[i] != [] {
      k := i;
    } else {
      if i < n {
        k := i - n;
        assert i % n == i by { ModUnique(i, n, 0, i); }
      } else {
        ModTurn(i - n, n);
        k := FirstByteIsLatest(init, accepted, i - n);
      }
      forall j | 0 <= j <= i && j > k && j % n == i % n ensures accepted[j] == [] {
        if i - n < j < i { ModDistinct(j, i, n); }
      }
    }
  }

  /** What is accepted and not printed yet is complete in its slot: nothing is overwritten before it is printed. */
  lemma UnreadIntact(s: Server, init: seq<seq<Byte>>, i: nat)
    requires Reachable(s, init) && |s.reports| <= i < |s.accepted|
    ensures |init| == |s.slots| && Holds(s.slots[i % |init|], s.accepted[i])
  {
    hide Reachable, RingOrder, Statuses, Printed, Firsts, Holds;
    ReachableInv(s, init);
    assert Holds(s.slots[SlotOf(s, i)], s.accepted[i]);
  }

  /** The NIC never writes into a buffer that is polled, or waiting to be polled. */
  lemma FilledBufferIsIdle(s: Server, init: seq<seq<Byte>>)
    requires Reachable(s, init) && s.posted != []
    ensures s.posted[0] !in Ids(s.batch) && s.posted[0] !in Ids(s.completed)
  {
    hide Reachable, Statuses, Contents, Printed, Firsts, Ids, Window;
    ReachableInv(s, init);
    NotInEarlierParts(|init|, Posts(s), Ids(s.batch), Ids(s.completed), s.posted);
  }

  /**
   The printed lines are all about accepted payloads if and only if no printed completion had a bad status; they
   can go wrong by one line only.
  */
  lemma LogIsAcceptedIffStatusesGood(s: Server, init: seq<seq<Byte>>)
    requires Reachable(s, init)
    ensures |s.reports| <= |s.accepted| <==> forall i :: 0 <= i < |s.reports| ==> s.reports[i].ok
    ensures |s.reports| <= |s.accepted| + 1
  {
    hide Reachable, RingOrder, Statuses, Contents, Firsts;
    ReachableInv(s, init);
    if |s.reports| > |s.accepted| {
      assert !s.reports[|s.accepted|].ok;
    } else {
      forall i | 0 <= i < |s.reports| ensures s.reports[i].ok {
        assert Reports(s, s.reports[i], i);
      }
    }
  }

  /**
   Because a line is printed before its status is checked, the printed lines are not always a prefix of the
   accepted payloads: for every ring size one line can be printed although nothing was ever received.
  */
  lemma PrintsBeforeChecking(init: seq<seq<Byte>>, junk: seq<Byte>) returns (s: Server)
    requires Buffers(init) && |junk| == MSG_SIZE
    ensures Reachable(s, init) && s.accepted == [] && |s.reports| == 1 && s.reports[0].first == junk[0]
  {
    hide Reachable;
    s := Posted(init);
    assert s.posted[0] == 0;
    ReachableNext(s, init, ReceiveError(junk, 0));
    s := Next(s, ReceiveError(junk, 0));
    ReachableNext(s, init, Poll(1));
    s := Next(s, Poll(1));
    ReachableNext(s, init, ReadNext);
    s := Next(s, ReadNext);
  }

  /** The first post hands every buffer to the NIC. */
  lemma Posted(init: seq<seq<Byte>>) returns (s: Server)
    requires Buffers(init)
    ensures Reachable(s, init) && s == Init(init).(posted := Window(|init|, 0, |init|), batch := [], read := 0)
  {
    hide Reachable;
    var s0 := Init(init);
    InitReachable(init);
    ReachableNext(s0, init, Repost(|init|));
    s := Next(s0, Repost(|init|));
  }

  /** One quiet round: a datagram arrives, is polled, printed and its buffer posted again. */
  lemma Round(s: Server, init: seq<seq<Byte>>, payload: seq<Byte>) returns (t: Server)
    requires Reachable(s, init) && AtRest(s) && |payload| <= MSG_SIZE
    ensures Reachable(t, init) && AtRest(t)
    ensures t.accepted == s.accepted + [payload] && |t.reports| == |s.reports| + 1
  {
    hide Reachable, Statuses, Contents, Printed, Firsts, RingOrder, Window;
    ReachableInv(s, init);
    RingPositions(s);
    ReachableNext(s, init, Receive(payload));
    t := Next(s, Receive(payload));
    ReachableNext(t, init, Poll(1));
    t := Next(t, Poll(1));
    ReachableNext(t, init, ReadNext);
    t := Next(t, ReadNext);
    ReachableNext(t, init, Repost(1));
    t := Next(t, Repost(1));
  }

  /** The program waits with every buffer posted. */
  predicate AtRest(s: Server) {
    s.running && s.batch == [] && s.read == 0 && s.completed == [] && !s.broken
  }

  /** Every sequence of datagrams, empty ones included, can be accepted and printed without an error. */
  lemma {:induction false} EverySequencePrinted(init: seq<seq<Byte>>, payloads: seq<seq<Byte>>) returns (s: Server)
    requires Buffers(init) && forall i :: 0 <= i < |payloads| ==> |payloads[i]| <= MSG_SIZE
    ensures Reachable(s, init) && AtRest(s) && s.accepted == payloads && |s.reports| == |payloads|
  {
    hide Reachable;
    if payloads == [] {
      s := Posted(init);
    } else {
      var last := |payloads| - 1;
      s := EverySequencePrinted(init, payloads[..last]);
      s := Round(s, init, payloads[last]);
      assert payloads[..last] + [payloads[last]] == payloads;
    }
  }

  /**
   After an empty datagram the program prints an earlier datagram's byte as if it had just arrived, for every ring
   size and every byte: line n is successful and about the empty datagram n, but shows datagram 0.
  */
  lemma StaleByte(init: seq<seq<Byte>>, b: Byte) returns (s: Server)
    requires Buffers(init)
    ensures Reachable(s, init) && |s.reports| == |s.accepted| == |init| + 1
    ensures s.accepted[0] == [b] && s.accepted[|init|] == []
    ensures s.reports[|init|] == Report(0, b, GRH_SIZE, true)
  {
    hide Reachable, AtRest;
    var n := |init|;
    var payloads := [[b]] + seq(n, _ => []);
    s := EverySequencePrinted(init, payloads);
    ExactlyOnce(s, init, n);
    ModTurn(0, n);
    assert FirstByte(init, payloads, n) == FirstByte(init, payloads, 0) == b;
  }
}
