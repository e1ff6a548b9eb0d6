/**
 Client, network and server together. The network keeps the order of messages and may lose any of them; the ring
 sizes of the two sides are independent. Every interleaving of the steps of both programs, both NICs and the
 network is a run.
*/
module SystemProtocol {
  import opened Bytes
  import opened Options
  import opened RawPacket
  import opened Ring
  import opened Subsequence
  import C = ClientProtocol
  import S = ServerProtocol

  datatype System = System(client: C.Client, server: S.Server, channel: seq<seq<Byte>>)

  datatype Step =
    | ClientStep(c: C.Step)
    | ServerStep(s: S.Step)
    | Lose(i: nat)
    | Deliver

  predicate Enabled(s: System, step: Step) {
    match step
    case ClientStep(c) => C.Enabled(s.client, c)
    case ServerStep(t) => !t.Receive? && S.Enabled(s.server, t)
    case Lose(i) => i < |s.channel|
    case Deliver => s.channel != []
  }

  /** A datagram that finds no posted buffer, or a broken queue pair, is dropped. */
  function Next(s: System, step: Step): System
    requires Enabled(s, step)
  {
    match step
    case ClientStep(c) =>
      var client := C.Next(s.client, c);
      System(client, s.server,
             if |client.sent| > |s.client.sent| then s.channel + [client.sent[|s.client.sent|]] else s.channel)
    case ServerStep(t) => s.(server := S.Next(s.server, t))
    case Lose(i) => s.(channel := s.channel[..i] + s.channel[i + 1..])
    case Deliver =>
      var arrival := S.Receive(s.channel[0]);
      System(s.client, if S.Enabled(s.server, arrival) then S.Next(s.server, arrival) else s.server, s.channel[1..])
  }

  function Init(sendSlots: seq<seq<Byte>>, receiveSlots: seq<seq<Byte>>): System {
    System(C.Init(sendSlots), S.Init(receiveSlots), [])
  }

  function Exec(s: System, steps: seq<Step>): Option<System> {
    if steps == [] then Some(s)
    else
      var before := Exec(s, steps[..|steps| - 1]);
      if before.None? || !Enabled(before.value, steps[|steps| - 1]) then None
      else Some(Next(before.value, steps[|steps| - 1]))
  }

  /** What the server has accepted and what is under way is a subsequence of what the client has transmitted. */
  ghost predicate Inv(s: System, init: seq<seq<Byte>>)
    requires S.Buffers(init)
  {
    && C.Inv(s.client)
    && S.Inv(s.server) && |s.server.slots| == |init| && S.Firsts(s.server, init)
    && IsSubsequence(s.server.accepted + s.channel, s.client.sent)
  }

  lemma ClientKeepsInv(s: System, init: seq<seq<Byte>>, c: C.Step)
    requires S.Buffers(init) && Inv(s, init) && Enabled(s, ClientStep(c))
    ensures Inv(Next(s, ClientStep(c)), init)
  {
    hide S.Inv, S.Firsts, S.Buffers, C.Inv;
    C.StepKeepsInv(s.client, c);
    var t := Next(s, ClientStep(c));
    if |t.client.sent| > |s.client.sent| {
      var x := t.client.sent[|s.client.sent|];
      assert t.client.sent == s.client.sent + [x];
      assert t.server.accepted + t.channel == s.server.accepted + s.channel + [x];
      AppendBoth(s.server.accepted + s.channel, s.client.sent, [x]);
    } else {
      assert t.client.sent == s.client.sent;
    }
  }

  lemma ServerKeepsInv(s: S.Server, init: seq<seq<Byte>>, step: S.Step)
    requires S.Buffers(init) && S.Inv(s) && S.Firsts(s, init) && S.Enabled(s, step)
    ensures S.Inv(S.Next(s, step)) && S.Firsts(S.Next(s, step), init) && |S.Next(s, step).slots| == |init|
  {
    hide S.Inv, S.Enabled, S.Next;
    S.StepKeepsInv(s, step);
    S.StepKeepsFirsts(s, init, step);
  }

  lemma StepKeepsInv(s: System, init: seq<seq<Byte>>, step: Step)
    requires S.Buffers(init) && Inv(s, init) && Enabled(s, step)
    ensures Inv(Next(s, step), init)
  {
    hide S.Inv, S.Firsts, S.Buffers, C.Inv, C.Next;
    var t := Next(s, step);
    var all := s.server.accepted + s.channel;
    match step
    case ClientStep(c) => ClientKeepsInv(s, init, c);
    case ServerStep(x) => ServerKeepsInv(s.server, init, x);
    case Lose(i) =>
      LoseOne(all, s.client.sent, |s.server.accepted| + i);
      var k := |s.server.accepted| + i;
      assert all[..k] + all[k + 1..] == t.server.accepted + t.channel;
    case Deliver =>
      if S.Enabled(s.server, S.Receive(s.channel[0])) {
        ServerKeepsInv(s.server, init, S.Receive(s.channel[0]));
        assert t.server.accepted + t.channel == all;
      } else {
        var k := |s.server.accepted|;
        LoseOne(all, s.client.sent, k);
        assert all[..k] + all[k + 1..] == t.server.accepted + t.channel;
      }
  }

  lemma {:induction false} RunInv(sendSlots: seq<seq<Byte>>, receiveSlots: seq<seq<Byte>>, steps: seq<Step>)
    requires C.Buffers(sendSlots) && S.Buffers(receiveSlots)
    requires Exec(Init(sendSlots, receiveSlots), steps).Some?
    ensures Inv(Exec(Init(sendSlots, receiveSlots), steps).value, receiveSlots)
  {
    hide S.Inv, S.Firsts, C.Inv;
    if steps == [] {
      C.InitInv(sendSlots);
      S.InitInv(receiveSlots);
      S.InitFirsts(receiveSlots);
      var none: seq<seq<Byte>> := [];
      assert none + none == none;
      EmptyIsSubsequence(none);
    } else {
      var before := steps[..|steps| - 1];
      RunInv(sendSlots, receiveSlots, before);
      StepKeepsInv(Exec(Init(sendSlots, receiveSlots), before).value, receiveSlots, steps[|steps| - 1]);
    }
  }

  /** In every reachable state the server has accepted a subsequence of what the client has transmitted. */
  lemma AcceptedAreTransmitted(sendSlots: seq<seq<Byte>>, receiveSlots: seq<seq<Byte>>, steps: seq<Step>)
    requires C.Buffers(sendSlots) && S.Buffers(receiveSlots)
    requires Exec(Init(sendSlots, receiveSlots), steps).Some?
    ensures var s := Exec(Init(sendSlots, receiveSlots), steps).value;
            IsSubsequence(s.server.accepted, s.client.sent)
  {
    hide S.Inv, S.Firsts, S.Buffers, C.Inv;
    RunInv(sendSlots, receiveSlots, steps);
    var s := Exec(Init(sendSlots, receiveSlots), steps).value;
    var js :| EmbedsBy(s.server.accepted + s.channel, s.client.sent, js);
    assert EmbedsBy(s.server.accepted, s.client.sent, js[..|s.server.accepted|]);
  }

  /** A line about a payload that is message `j` shows the byte and the size of message `j`. */
  lemma LineShowsMessage(s: System, init: seq<seq<Byte>>, i: nat, j: nat)
    requires S.Buffers(init) && Inv(s, init) && i < |s.server.reports| && i < |s.server.accepted|
    requires j < |s.client.sent| && s.server.accepted[i] == s.client.sent[j]
    ensures s.server.reports[i] == S.Report(i % |init|, (j % 256) as bv8, GRH_SIZE + MSG_SIZE, true)
  {
    hide S.RingOrder, S.Statuses, S.Contents, C.RingOrder, C.Contents, S.FirstKept;
    assert S.Reports(s.server, s.server.reports[i], i);
    assert s.server.accepted[i] == C.Fill(j);
  }

  /**
   End to end: the successful lines the server prints are, in order, about messages js[0] < js[1] < ... of the
   client; line i shows slot i mod the ring size, byte js[i] mod 256 and a full-sized payload.
  */
  lemma EndToEnd(sendSlots: seq<seq<Byte>>, receiveSlots: seq<seq<Byte>>, steps: seq<Step>)
    returns (js: seq<nat>)
    requires C.Buffers(sendSlots) && S.Buffers(receiveSlots)
    requires Exec(Init(sendSlots, receiveSlots), steps).Some?
    ensures var s := Exec(Init(sendSlots, receiveSlots), steps).value;
            && Increasing(js) && |s.server.reports| - 1 <= |js| <= |s.server.reports|
            && (forall i :: 0 <= i < |js| ==> js[i] < |s.client.sent|)
            && (forall i :: 0 <= i < |js| ==>
                  s.server.reports[i] == S.Report(i % |receiveSlots|, (js[i] % 256) as bv8, GRH_SIZE + MSG_SIZE, true))
            && (forall i :: |js| <= i < |s.server.reports| ==> !s.server.reports[i].ok)
  {
    RunInv(sendSlots, receiveSlots, steps);
    AcceptedAreTransmitted(sendSlots, receiveSlots, steps);
    var s := Exec(Init(sendSlots, receiveSlots), steps).value;
    var ks :| EmbedsBy(s.server.accepted, s.client.sent, ks);
    var g := if |s.server.reports| < |s.server.accepted| then |s.server.reports| else |s.server.accepted|;
    js := ks[..g];
    hide S.RingOrder, S.Statuses, S.Contents, C.RingOrder, C.Contents, S.FirstKept;
    forall i | 0 <= i < g
      ensures s.server.reports[i] == S.Report(i % |receiveSlots|, (js[i] % 256) as bv8, GRH_SIZE + MSG_SIZE, true)
    {
      LineShowsMessage(s, receiveSlots, i, js[i]);
    }
  }

  // ----- a run for every number of messages -----

  ghost predicate Reachable(s: System, sendSlots: seq<seq<Byte>>, receiveSlots: seq<seq<Byte>>) {
    && C.Buffers(sendSlots) && S.Buffers(receiveSlots)
    && exists steps: seq<Step> :: Exec(Init(sendSlots, receiveSlots), steps) == Some(s)
  }

  lemma InitReachable(sendSlots: seq<seq<Byte>>, receiveSlots: seq<seq<Byte>>)
    requires C.Buffers(sendSlots) && S.Buffers(receiveSlots)
    ensures Reachable(Init(sendSlots, receiveSlots), sendSlots, receiveSlots)
  {
    assert Exec(Init(sendSlots, receiveSlots), []) == Some(Init(sendSlots, receiveSlots));
  }

  lemma ReachableNext(s: System, sendSlots: seq<seq<Byte>>, receiveSlots: seq<seq<Byte>>, step: Step)
    requires Reachable(s, sendSlots, receiveSlots) && Enabled(s, step)
    ensures Reachable(Next(s, step), sendSlots, receiveSlots)
  {
    hide Enabled, Next, C.Buffers, S.Buffers;
    var steps: seq<Step> :| Exec(Init(sendSlots, receiveSlots), steps) == Some(s);
    var longer := steps + [step];
    assert longer[..|longer| - 1] == steps;
    assert Exec(Init(sendSlots, receiveSlots), longer) == Some(Next(s, step));
  }

  lemma ReachableInv(s: System, sendSlots: seq<seq<Byte>>, receiveSlots: seq<seq<Byte>>)
    requires Reachable(s, sendSlots, receiveSlots)
    ensures S.Buffers(receiveSlots) && Inv(s, receiveSlots)
  {
    hide Inv, C.Buffers, S.Buffers;
    var steps: seq<Step> :| Exec(Init(sendSlots, receiveSlots), steps) == Some(s);
    RunInv(sendSlots, receiveSlots, steps);
  }

  /** One client step that transmits nothing. */
  lemma ClientMoves(s: System, sendSlots: seq<seq<Byte>>, receiveSlots: seq<seq<Byte>>, c: C.Step) returns (t: System)
    requires Reachable(s, sendSlots, receiveSlots) && C.Enabled(s.client, c) && !c.Complete?
    ensures Reachable(t, sendSlots, receiveSlots) && t == s.(client := C.Next(s.client, c))
  {
    hide Reachable;
    ReachableNext(s, sendSlots, receiveSlots, ClientStep(c));
    t := Next(s, ClientStep(c));
  }

  /** The first `i` iterations of the client's first fill loop. */
  lemma {:induction false} FirstFill(sendSlots: seq<seq<Byte>>, receiveSlots: seq<seq<Byte>>, i: nat)
    returns (s: System)
    requires C.Buffers(sendSlots) && S.Buffers(receiveSlots) && i <= |sendSlots|
    ensures Reachable(s, sendSlots, receiveSlots) && |s.client.slots| == |sendSlots|
    ensures var c := C.Init(sendSlots);
            s == Init(sendSlots, receiveSlots).(client := c.(slots := s.client.slots, count := i, filled := i))
  {
    hide Reachable;
    if i == 0 {
      InitReachable(sendSlots, receiveSlots);
      s := Init(sendSlots, receiveSlots);
    } else {
      s := FirstFill(sendSlots, receiveSlots, i - 1);
      s := ClientMoves(s, sendSlots, receiveSlots, C.FillNext);
    }
  }

  ghost predicate AtRest(s: System) {
    C.AtRest(s.client) && S.AtRest(s.server) && s.channel == []
  }

  /** Both programs have filled and posted everything, and nothing has been sent. */
  lemma Started(sendSlots: seq<seq<Byte>>, receiveSlots: seq<seq<Byte>>) returns (s: System)
    requires C.Buffers(sendSlots) && S.Buffers(receiveSlots)
    ensures Reachable(s, sendSlots, receiveSlots) && AtRest(s)
    ensures s.client.sent == [] && s.server.accepted == [] && s.server.reports == []
  {
    hide Reachable;
    s := FirstFill(sendSlots, receiveSlots, |sendSlots|);
    s := ClientMoves(s, sendSlots, receiveSlots, C.Repost(|sendSlots|));
    ReachableNext(s, sendSlots, receiveSlots, ServerStep(S.Repost(|receiveSlots|)));
    s := Next(s, ServerStep(S.Repost(|receiveSlots|)));
  }

  /** The oldest posted message goes onto the wire and arrives. */
  lemma Cross(s: System, sendSlots: seq<seq<Byte>>, receiveSlots: seq<seq<Byte>>) returns (t: System)
    requires Reachable(s, sendSlots, receiveSlots) && AtRest(s)
    ensures Reachable(t, sendSlots, receiveSlots) && t.channel == []
    ensures C.Enabled(s.client, C.Complete(true)) && t.client == C.Next(s.client, C.Complete(true))
    ensures |t.client.sent| == |s.client.sent| + 1
    ensures var arrival := S.Receive(t.client.sent[|s.client.sent|]);
            S.Enabled(s.server, arrival) && t.server == S.Next(s.server, arrival)
  {
    hide Reachable, S.Statuses, S.Contents, S.Printed, S.Firsts, Window;
    ReachableInv(s, sendSlots, receiveSlots);
    C.RingPositions(s.client);
    S.RingPositions(s.server);
    ReachableNext(s, sendSlots, receiveSlots, ClientStep(C.Complete(true)));
    t := Next(s, ClientStep(C.Complete(true)));
    ReachableNext(t, sendSlots, receiveSlots, Deliver);
    t := Next(t, Deliver);
  }

  lemma ServerMoves(s: System, sendSlots: seq<seq<Byte>>, receiveSlots: seq<seq<Byte>>, x: S.Step) returns (t: System)
    requires Reachable(s, sendSlots, receiveSlots) && S.Enabled(s.server, x) && !x.Receive?
    ensures Reachable(t, sendSlots, receiveSlots) && t == s.(server := S.Next(s.server, x))
  {
    hide Reachable;
    ReachableNext(s, sendSlots, receiveSlots, ServerStep(x));
    t := Next(s, ServerStep(x));
  }

  /** The server polls and prints the only completion there is, and posts its buffer again. */
  lemma ServerRound(s: System, sendSlots: seq<seq<Byte>>, receiveSlots: seq<seq<Byte>>, before: S.Server,
                    payload: seq<Byte>) returns (t: System)
    requires Reachable(s, sendSlots, receiveSlots) && S.AtRest(before)
    requires S.RingOrder(before) && S.Buffers(before.slots)
    requires S.Enabled(before, S.Receive(payload)) && s.server == S.Next(before, S.Receive(payload))
    ensures Reachable(t, sendSlots, receiveSlots) && t == s.(server := t.server)
    ensures S.AtRest(t.server) && t.server.accepted == s.server.accepted
    ensures |t.server.reports| == |before.reports| + 1
  {
    hide Reachable, S.RingOrder, Window;
    S.RingPositions(before);
    t := ServerMoves(s, sendSlots, receiveSlots, S.Poll(1));
    t := ServerMoves(t, sendSlots, receiveSlots, S.ReadNext);
    t := ServerMoves(t, sendSlots, receiveSlots, S.Repost(1));
  }

  /** The client polls the only completion there is, refills its buffer and posts it again. */
  lemma ClientRound(s: System, sendSlots: seq<seq<Byte>>, receiveSlots: seq<seq<Byte>>, before: C.Client)
    returns (t: System)
    requires Reachable(s, sendSlots, receiveSlots) && C.AtRest(before) && C.RingOrder(before) && C.Contents(before)
    requires C.Enabled(before, C.Complete(true)) && s.client == C.Next(before, C.Complete(true))
    ensures Reachable(t, sendSlots, receiveSlots) && t == s.(client := t.client)
    ensures C.AtRest(t.client) && t.client.sent == s.client.sent
  {
    hide Reachable, C.RingOrder, C.Contents, Window;
    C.RingPositions(before);
    t := ClientMoves(s, sendSlots, receiveSlots, C.Poll(1));
    t := ClientMoves(t, sendSlots, receiveSlots, C.FillNext);
    t := ClientMoves(t, sendSlots, receiveSlots, C.Repost(1));
  }

  /** One message crosses the whole system. */
  lemma MessageCrosses(s: System, sendSlots: seq<seq<Byte>>, receiveSlots: seq<seq<Byte>>) returns (t: System)
    requires Reachable(s, sendSlots, receiveSlots) && AtRest(s)
    ensures Reachable(t, sendSlots, receiveSlots) && AtRest(t)
    ensures |t.client.sent| == |s.client.sent| + 1 && |t.server.reports| == |s.server.reports| + 1
    ensures s.server.accepted == s.client.sent ==> t.server.accepted == t.client.sent
  {
    hide Reachable, C.RingOrder, C.Contents, C.Transmitted, S.Statuses, S.Contents, S.Printed, S.Firsts, S.RingOrder;
    ReachableInv(s, sendSlots, receiveSlots);
    t := Cross(s, sendSlots, receiveSlots);
    t := ServerRound(t, sendSlots, receiveSlots, s.server, t.client.sent[|s.client.sent|]);
    t := ClientRound(t, sendSlots, receiveSlots, s.client);
  }

  /**
   Nothing need be lost: for all ring sizes and every number of messages there is a run in which that many messages
   are transmitted, accepted and printed, in order and each exactly once.
  */
  lemma {:induction false} EveryMessageDelivered(sendSlots: seq<seq<Byte>>, receiveSlots: seq<seq<Byte>>, k: nat)
    returns (s: System)
    requires C.Buffers(sendSlots) && S.Buffers(receiveSlots)
    ensures Reachable(s, sendSlots, receiveSlots) && AtRest(s)
    ensures s.server.accepted == s.client.sent && |s.client.sent| == |s.server.reports| == k
    ensures forall i :: 0 <= i < k ==>
              s.server.reports[i] == S.Report(i % |receiveSlots|, (i % 256) as bv8, GRH_SIZE + MSG_SIZE, true)
  {
    hide Reachable, AtRest;
    if k == 0 {
      s := Started(sendSlots, receiveSlots);
    } else {
      s := EveryMessageDelivered(sendSlots, receiveSlots, k - 1);
      s := MessageCrosses(s, sendSlots, receiveSlots);
    }
    ReachableInv(s, sendSlots, receiveSlots);
    forall i | 0 <= i < k
      ensures s.server.reports[i] == S.Report(i % |receiveSlots|, (i % 256) as bv8, GRH_SIZE + MSG_SIZE, true)
    {
      LineShowsMessage(s, receiveSlots, i, i);
    }
  }
}
