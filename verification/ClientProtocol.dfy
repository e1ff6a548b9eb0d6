/**
 The client of rdma_client.c and its NIC as a state machine: the application fills, posts, polls, refills and
 reposts; the NIC works through the posted requests in order, at any time. One work request, one send buffer
 and one slot of the ring share an index.
*/
module ClientProtocol {
  import opened Bytes
  import opened Options
  import opened RawPacket
  import opened Ring

  /** The `wr_id` and status of a work completion. */
  datatype Completion = Completion(wrId: nat, ok: bool)

  datatype Client = Client(
    slots: seq<seq<Byte>>,        // send buffers
    count: nat,                   // number of buffers filled so far
    batch: seq<Completion>,       // polled requests that are not posted again yet
    filled: nat,                  // how many of them have been refilled
    running: bool,                // not yet on the way to clean-up
    posted: seq<nat>,             // send queue
    completed: seq<Completion>,   // completion queue
    broken: bool,                 // the queue pair has entered its error state
    sent: seq<seq<Byte>>)         // messages put on the wire

  /** `memset(buffer, count, MSG_SIZE)` */
  function Fill(count: nat): (s: seq<Byte>)
    ensures |s| == MSG_SIZE
    ensures forall i :: 0 <= i < |s| ==> s[i] == (count % 256) as bv8
  {
    seq(MSG_SIZE, _ => (count % 256) as bv8)
  }

  datatype Step =
    | FillNext              // one iteration of a fill loop
    | BadCompletion         // a completion with an error status ends the loop
    | Repost(accepted: nat) // post_sends; fewer accepted than asked for is a failure
    | Poll(k: nat)
    | Stop                  // signal or poll error
    | Complete(ok: bool)    // NIC: the oldest posted request

  function Ids(s: seq<Completion>): (t: seq<nat>)
    ensures |t| == |s|
    ensures forall k :: 0 <= k < |s| ==> t[k] == s[k].wrId
  {
    seq(|s|, k requires 0 <= k < |s| => s[k].wrId)
  }

  /** The send buffers at the start: at least one, each of full size, whatever they hold. */
  ghost predicate Buffers(slots: seq<seq<Byte>>) {
    |slots| > 0 && forall i :: 0 <= i < |slots| ==> |slots[i]| == MSG_SIZE
  }

  /** Before the first fill loop every slot is the application's, as if all had just been polled. */
  function Init(slots: seq<seq<Byte>>): Client {
    var n := |slots|;
    Client(slots, 0, seq(n, k requires 0 <= k < n => Completion(k, true)), 0, true, [], [], false, [])
  }

  predicate Enabled(s: Client, step: Step) {
    match step
    case FillNext => s.running && s.filled < |s.batch| && s.batch[s.filled].ok && s.batch[s.filled].wrId < |s.slots|
    case BadCompletion => s.running && s.filled < |s.batch| && !s.batch[s.filled].ok
    case Repost(accepted) => s.running && s.filled == |s.batch| > 0 && accepted <= |s.batch| && |s.slots| > 0
    case Poll(k) => s.running && s.batch == [] && k <= 10 && k <= |s.completed|
    case Stop => s.running && s.batch == []
    case Complete(ok) => s.posted != [] && s.posted[0] < |s.slots|
  }

  /** What one step does. Reposting knows only the first polled index and the number of polled requests. */
  function Next(s: Client, step: Step): Client
    requires Enabled(s, step)
  {
    match step
    case FillNext =>
      s.(slots := s.slots[s.batch[s.filled].wrId := Fill(s.count)], count := s.count + 1, filled := s.filled + 1)
    case BadCompletion => s.(running := false)
    case Repost(accepted) =>
      var walk := Window(|s.slots|, s.batch[0].wrId, |s.batch|);
      s.(posted := s.posted + walk[..accepted], batch := s.batch[accepted..], filled := s.filled - accepted,
         running := accepted == |s.batch|)
    case Poll(k) => s.(batch := s.completed[..k], filled := 0, completed := s.completed[k..])
    case Stop => s.(running := false)
    case Complete(ok) =>
      var good := ok && !s.broken;
      s.(posted := s.posted[1..], completed := s.completed + [Completion(s.posted[0], good)], broken := !good,
         sent := if good then s.sent + [s.slots[s.posted[0]]] else s.sent)
  }

  /** The state after a run, if every step of it was possible. */
  function Exec(s: Client, steps: seq<Step>): Option<Client> {
    if steps == [] then Some(s)
    else
      var before := Exec(s, steps[..|steps| - 1]);
      if before.None? || !Enabled(before.value, steps[|steps| - 1]) then None
      else Some(Next(before.value, steps[|steps| - 1]))
  }

  // ----- the invariant -----

  /** How many requests have been posted since the start. */
  function Posts(s: Client): int {
    s.count - s.filled
  }

  /** Each slot is in exactly one place, and the places form one turn of the ring. */
  ghost predicate RingOrder(s: Client) {
    && |s.slots| > 0 && s.filled <= |s.batch| && s.filled <= s.count
    && Ids(s.batch) + Ids(s.completed) + s.posted == Window(|s.slots|, Posts(s), |s.slots|)
  }

  /** Slot of message `m`. */
  function SlotOf(s: Client, m: nat): nat
    requires |s.slots| > 0
  {
    m % |s.slots|
  }

  /** Every message that is filled but not yet transmitted still sits in its slot. */
  ghost predicate Contents(s: Client) {
    && |s.slots| > 0 && |s.posted| <= Posts(s)
    && (forall m: nat {:trigger Fill(m)} :: Posts(s) - |s.posted| <= m < Posts(s) + s.filled ==>
          s.slots[SlotOf(s, m)] == Fill(m))
  }

  /** What has been put on the wire is messages 0, 1, 2, ... in order, and nothing was skipped. */
  ghost predicate Transmitted(s: Client) {
    && |s.sent| <= Posts(s) - |s.posted|
    && (!s.broken ==> |s.sent| == Posts(s) - |s.posted|)
    && forall j :: 0 <= j < |s.sent| ==> s.sent[j] == Fill(j)
  }

  ghost predicate Inv(s: Client) {
    RingOrder(s) && Buffers(s.slots) && Contents(s) && Transmitted(s)
  }

  /** Where the ids of the ring are: the oldest in the batch, then the completion queue, then the send queue. */
  lemma RingPositions(s: Client)
    requires RingOrder(s)
    ensures |s.batch| + |s.completed| + |s.posted| == |s.slots|
    ensures forall k :: 0 <= k < |s.batch| ==> s.batch[k].wrId == (Posts(s) + k) % |s.slots| < |s.slots|
    ensures s.posted != [] ==> Posts(s) >= |s.posted| ==> s.posted[0] == SlotOf(s, Posts(s) - |s.posted|) < |s.slots|
  {
    var n, p := |s.slots|, Posts(s);
    var ids := Ids(s.batch) + Ids(s.completed) + s.posted;
    forall k | 0 <= k < |s.batch| ensures s.batch[k].wrId == (p + k) % n < n {
      assert ids[k] == s.batch[k].wrId;
    }
    if s.posted != [] && p >= |s.posted| {
      assert ids[n - |s.posted|] == s.posted[0];
      ModTurn(p - |s.posted|, n);
      assert p + n - |s.posted| == p - |s.posted| + n;
    }
  }

  lemma InitInv(slots: seq<seq<Byte>>)
    requires Buffers(slots)
    ensures Inv(Init(slots))
  {
    var s, n := Init(slots), |slots|;
    assert Ids(s.batch) == Window(n, 0, n);
    assert Ids(s.batch) + Ids(s.completed) + s.posted == Window(n, 0, n);
  }

  lemma FillKeepsInv(s: Client)
    requires Inv(s) && Enabled(s, FillNext)
    ensures Inv(Next(s, FillNext))
  {
    RingPositions(s);
    var t := Next(s, FillNext);
    var n, c := |s.slots|, s.count;
    assert t.slots[SlotOf(t, c)] == Fill(c);
    forall m: nat | Posts(t) - |t.posted| <= m < Posts(t) + t.filled ensures t.slots[SlotOf(t, m)] == Fill(m) {
      if m < c { ModDistinct(m, c, n); }
    }
  }

  lemma BatchIsWindow(s: Client)
    requires RingOrder(s) && s.batch != []
    ensures Window(|s.slots|, s.batch[0].wrId, |s.batch|) == Ids(s.batch) && |s.batch| <= |s.slots|
  {
    hide Window;
    RingPositions(s);
    WindowFromSlot(|s.slots|, Posts(s), |s.batch|);
    var ids := Ids(s.batch) + Ids(s.completed) + s.posted;
    assert ids[..|s.batch|] == Ids(s.batch);
    Rotate(|s.slots|, Posts(s), ids, |s.batch|);
  }

  lemma RepostKeepsInv(s: Client, accepted: nat)
    requires Inv(s) && Enabled(s, Repost(accepted))
    ensures Inv(Next(s, Repost(accepted)))
  {
    hide Window;
    RingPositions(s);
    BatchIsWindow(s);
    var t := Next(s, Repost(accepted));
    var ids := Ids(s.batch) + Ids(s.completed) + s.posted;
    Rotate(|s.slots|, Posts(s), ids, accepted);
    assert ids[..accepted] == Ids(s.batch)[..accepted];
    assert ids[accepted..] == Ids(t.batch) + Ids(t.completed) + s.posted;
    assert Ids(t.batch) + Ids(t.completed) + t.posted == ids[accepted..] + ids[..accepted];
  }

  lemma PollKeepsInv(s: Client, k: nat)
    requires Inv(s) && Enabled(s, Poll(k))
    ensures Inv(Next(s, Poll(k)))
  {
    var t := Next(s, Poll(k));
    assert Ids(t.batch) + Ids(t.completed) == Ids(s.batch) + Ids(s.completed);
  }

  lemma CompleteKeepsInv(s: Client, ok: bool)
    requires Inv(s) && Enabled(s, Complete(ok))
    ensures Inv(Next(s, Complete(ok)))
  {
    RingPositions(s);
    var t := Next(s, Complete(ok));
    assert Ids(t.completed) + t.posted == Ids(s.completed) + s.posted;
    assert Ids(t.batch) + Ids(t.completed) + t.posted == Ids(s.batch) + (Ids(s.completed) + s.posted);
    assert Fill(Posts(s) - |s.posted|) == s.slots[s.posted[0]];
  }

  lemma StepKeepsInv(s: Client, step: Step)
    requires Inv(s) && Enabled(s, step)
    ensures Inv(Next(s, step))
  {
    match step
    case FillNext => FillKeepsInv(s);
    case BadCompletion =>
    case Repost(accepted) => RepostKeepsInv(s, accepted);
    case Poll(k) => PollKeepsInv(s, k);
    case Stop =>
    case Complete(ok) => CompleteKeepsInv(s, ok);
  }

  /** Every state of every run satisfies the invariant. */
  lemma {:induction false} RunInv(slots: seq<seq<Byte>>, steps: seq<Step>)
    requires Buffers(slots)
    requires Exec(Init(slots), steps).Some?
    ensures Inv(Exec(Init(slots), steps).value)
    ensures |Exec(Init(slots), steps).value.slots| == |slots|
  {
    if steps == [] {
      InitInv(slots);
    } else {
      var before := steps[..|steps| - 1];
      RunInv(slots, before);
      StepKeepsInv(Exec(Init(slots), before).value, steps[|steps| - 1]);
    }
  }

  // ----- main results -----

  ghost predicate Reachable(s: Client, n: nat) {
    exists slots: seq<seq<Byte>>, steps: seq<Step> ::
      n == |slots| && Buffers(slots) && Exec(Init(slots), steps) == Some(s)
  }

  lemma ReachableInv(s: Client, n: nat)
    requires Reachable(s, n)
    ensures Inv(s) && |s.slots| == n
  {
    var slots: seq<seq<Byte>>, steps: seq<Step> :|
      n == |slots| && Buffers(slots) && Exec(Init(slots), steps) == Some(s);
    RunInv(slots, steps);
  }

  lemma InitReachable(slots: seq<seq<Byte>>)
    requires Buffers(slots)
    ensures Reachable(Init(slots), |slots|)
  {
    assert Exec(Init(slots), []) == Some(Init(slots));
  }

  lemma ReachableNext(s: Client, n: nat, step: Step)
    requires Reachable(s, n) && Enabled(s, step)
    ensures Reachable(Next(s, step), n)
  {
    hide Enabled, Next;
    var slots: seq<seq<Byte>>, steps: seq<Step> :|
      n == |slots| && Buffers(slots) && Exec(Init(slots), steps) == Some(s);
    var longer := steps + [step];
    assert longer[..|longer| - 1] == steps;
    assert Exec(Init(slots), longer) == Some(Next(s, step));
  }

  lemma HeadOrder(s: Client)
    requires RingOrder(s) && s.batch == []
    ensures Ids(s.completed) + s.posted == Window(|s.slots|, s.count, |s.slots|)
  {
    hide Window;
    assert Ids(s.batch) + Ids(s.completed) + s.posted == Ids(s.completed) + s.posted;
  }

  /**
   At each loop head completion queue and send queue hold every slot once, in ring order from the next message
   number; so no request is lost, duplicated or posted twice.
  */
  lemma LoopHeadOrder(s: Client, n: nat)
    requires Reachable(s, n) && s.batch == []
    ensures Ids(s.completed) + s.posted == Window(n, s.count, n)
  {
    hide Reachable, RingOrder, Buffers, Contents, Transmitted, Window;
    ReachableInv(s, n);
    HeadOrder(s);
  }

  /**
   Queues of the ring's size suffice: what is polled can always be posted again, and every posted request can
   complete without overflowing the completion queue.
  */
  lemma QueuesSuffice(s: Client, n: nat)
    requires Reachable(s, n)
    ensures |s.posted| + |s.batch| <= n && |s.completed| + |s.posted| <= n
  {
    hide Reachable, RingOrder, Buffers, Contents, Transmitted;
    ReachableInv(s, n);
    RingPositions(s);
  }

  /** Reposting `(wc[0].wr_id, ne)` reposts exactly the polled batch. */
  lemma RepostIsBatch(s: Client, n: nat)
    requires Reachable(s, n) && s.batch != []
    ensures Window(n, s.batch[0].wrId, |s.batch|) == Ids(s.batch) && |s.batch| <= n
  {
    hide Reachable, RingOrder, Buffers, Contents, Transmitted, Window;
    ReachableInv(s, n);
    BatchIsWindow(s);
  }

  /** A buffer is overwritten only while its request is neither posted nor waiting to be polled. */
  lemma FilledBufferIsIdle(s: Client, n: nat)
    requires Reachable(s, n) && Enabled(s, FillNext)
    ensures s.batch[s.filled].wrId !in s.posted
    ensures s.batch[s.filled].wrId !in Ids(s.completed)
  {
    hide Reachable, Buffers, Contents, Transmitted, Window;
    ReachableInv(s, n);
    assert Ids(s.batch) + Ids(s.completed) + s.posted == Ids(s.batch) + (Ids(s.completed) + s.posted);
    NotInLaterPart(n, Posts(s), Ids(s.batch), Ids(s.completed) + s.posted, s.filled);
  }

  /** The j-th message on the wire is MSG_SIZE copies of byte j mod 256, for every j of every run. */
  lemma SentInOrder(s: Client, n: nat, j: nat)
    requires Reachable(s, n) && j < |s.sent|
    ensures s.sent[j] == seq(MSG_SIZE, _ => (j % 256) as bv8)
  {
    ReachableInv(s, n);
  }

  /** The program waits with every buffer posted. */
  predicate AtRest(s: Client) {
    s.running && s.batch == [] && s.filled == 0 && s.completed == [] && !s.broken
  }
}
