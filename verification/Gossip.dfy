/**
A network of gossiping processes: the total number of gossip events ever received is
bounded by the number of events originated, because every hop uses up part of a TTL.

A packet is delivered at most once; it may be delayed, overtaken or lost.
*/
module Gossip {
  import opened Membership

  /** `handling` are the messages whose events are merged and whose second part is still to come. */
  datatype Process = Process(addr: string, httpAddr: string, view: View, handling: multiset<Message>)

  datatype Packet = Packet(to: nat, msg: Message)

  datatype Network = Network(
    processes: seq<Process>,
    flight: seq<Packet>,
    originated: nat,
    received: nat)

  datatype Step =
    // `New` sends its join to one seed
    | Announce(p: nat, to: nat)
    // `directPing` sends a ping with what is drained
    | SendPing(p: nat, to: nat)
    // `probeOne` asks a helper to ping the target
    | SendPingReq(p: nat, to: nat, target: string)
    // a helper whose ping was answered says so; `recv` takes the helper for its sender
    | SendRelayedAck(p: nat, to: nat)
    // `handleMsg` merges the events of the i-th packet in flight
    | Receive(i: nat)
    // the second part of `handleMsg`: a ping is answered with an incarnation read in between
    | Answer(p: nat, msg: Message, incarnation: nat, to: nat)
    // an ack refutes a suspicion
    | Refute(p: nat, msg: Message)
    // a ping-req makes a goroutine that pings the target
    | Relay(p: nat, msg: Message)
    | Lose(i: nat)
    // the timers of `probeOne` and `checkSuspects`
    | ProbeFails(p: nat, target: string, now: int)
    | Expire(p: nat, addr: string, now: int, timeout: int)
    // a process restarts with an empty queue
    | Restart(p: nat, view: View)

  predicate Handling(n: Network, p: nat, msg: Message) {
    p < |n.processes| && msg in n.processes[p].handling
  }

  predicate Enabled(n: Network, step: Step) {
    match step
    case Announce(p, _) => p < |n.processes|
    case SendPing(p, _) => p < |n.processes|
    case SendPingReq(p, _, _) => p < |n.processes|
    case SendRelayedAck(p, _) => p < |n.processes|
    case Receive(i) => i < |n.flight| && n.flight[i].to < |n.processes|
    case Answer(p, msg, _, _) => Handling(n, p, msg) && msg.kind.Ping?
    case Refute(p, msg) => Handling(n, p, msg) && msg.kind.Ack?
    case Relay(p, msg) => Handling(n, p, msg) && msg.kind.PingReq?
    case Lose(i) => i < |n.flight|
    case ProbeFails(p, _, _) => p < |n.processes|
    case Expire(p, _, _, _) => p < |n.processes|
    case Restart(p, view) => p < |n.processes| && view.pending == []
  }

  function WithProcess(n: Network, p: nat, view: View, handling: multiset<Message>): Network
    requires p < |n.processes|
  {
    n.(processes := n.processes[p := n.processes[p].(view := view, handling := handling)])
  }

  function WithView(n: Network, p: nat, view: View): Network
    requires p < |n.processes|
  {
    WithProcess(n, p, view, n.processes[p].handling)
  }

  function Sent(n: Network, to: nat, msg: Message): Network {
    n.(flight := n.flight + [Packet(to, msg)])
  }

  function WithoutPacket(n: Network, i: nat): Network
    requires i < |n.flight|
  {
    n.(flight := n.flight[..i] + n.flight[i + 1..])
  }

  function Next(n: Network, step: Step): Network
    requires Enabled(n, step)
  {
    match step
    case Announce(p, to) =>
      var q := n.processes[p];
      Sent(n, to, Message(Ping, q.addr, "", [Gossip(Join, q.addr, q.httpAddr, EVENT_TTL, 0)]))
        .(originated := n.originated + 1)
    case SendPing(p, to) =>
      var q := n.processes[p];
      Sent(WithView(n, p, Drained(q.view)), to,
           Message(Ping, q.addr, "", q.view.pending[..DrainSize(q.view.pending)]))
    case SendPingReq(p, to, target) => Sent(n, to, Message(PingReq, n.processes[p].addr, target, []))
    case SendRelayedAck(p, to) => Sent(n, to, Message(Ack, n.processes[p].addr, "", []))
    case Receive(i) =>
      var msg, p := n.flight[i].msg, n.flight[i].to;
      var q := n.processes[p];
      WithProcess(WithoutPacket(n, i), p, MergedAll(q.view, msg.events), q.handling + multiset{msg})
        .(received := n.received + |msg.events|)
    case Answer(p, msg, incarnation, to) =>
      var q := n.processes[p];
      Sent(WithProcess(n, p, Drained(q.view), q.handling - multiset{msg}), to,
           Acknowledgement(q.view, q.addr, q.httpAddr, incarnation))
        .(originated := n.originated + 1)
    case Refute(p, msg) =>
      var q := n.processes[p];
      WithProcess(n, p, Refuted(q.view, msg.from), q.handling - multiset{msg})
    case Relay(p, msg) =>
      var q := n.processes[p];
      WithProcess(n, p, q.view, q.handling - multiset{msg})
    case Lose(i) => WithoutPacket(n, i)
    case ProbeFails(p, target, now) => WithView(n, p, Suspected(n.processes[p].view, target, now))
    case Expire(p, addr, now, timeout) =>
      var v := n.processes[p].view;
      var v' := Expired(v, addr, now, timeout);
      WithView(n, p, v').(originated := n.originated + |v'.pending| - |v.pending|)
    case Restart(p, view) => WithProcess(n, p, view, multiset{})
  }

  function After(n: Network, steps: seq<Step>): Network {
    if steps == [] then n
    else
      var before := After(n, steps[..|steps| - 1]);
      if Enabled(before, steps[|steps| - 1]) then Next(before, steps[|steps| - 1]) else before
  }

  /** Handling a ping without anything in between is these two steps. */
  lemma {:induction false} ReceiveThenAnswer(n: Network, i: nat, to: nat)
    requires i < |n.flight| && n.flight[i].to < |n.processes| && n.flight[i].msg.kind.Ping?
    ensures var p, msg := n.flight[i].to, n.flight[i].msg;
            var q := n.processes[p];
            var merged := MergedAll(q.view, msg.events);
            var n' := After(n, [Receive(i), Answer(p, msg, OwnIncarnation(merged, q.addr), to)]);
            && n'.processes == n.processes[p := q.(view := Handled(q.view, msg))]
            && n'.flight == WithoutPacket(n, i).flight + [Packet(to, AckTo(merged, q.addr, q.httpAddr))]
  {
    var p, msg := n.flight[i].to, n.flight[i].msg;
    var q := n.processes[p];
    var merged := MergedAll(q.view, msg.events);
    var a, b := Receive(i), Answer(p, msg, OwnIncarnation(merged, q.addr), to);
    assert [a, b][..1] == [a] && [a][..0] == [];
    assert After(n, [a][..0]) == n;
    var n1 := After(n, [a]);
    assert n1 == Next(n, a);
    assert n1.processes[p] == q.(view := merged, handling := q.handling + multiset{msg});
    assert q.handling + multiset{msg} - multiset{msg} == q.handling;
  }

  /** So is the handling of an ack. */
  lemma {:induction false} ReceiveThenRefute(n: Network, i: nat)
    requires i < |n.flight| && n.flight[i].to < |n.processes| && n.flight[i].msg.kind.Ack?
    ensures var p, msg := n.flight[i].to, n.flight[i].msg;
            var q := n.processes[p];
            After(n, [Receive(i), Refute(p, msg)]).processes == n.processes[p := q.(view := Handled(q.view, msg))]
  {
    var p, msg := n.flight[i].to, n.flight[i].msg;
    var q := n.processes[p];
    var a, b := Receive(i), Refute(p, msg);
    assert [a, b][..1] == [a] && [a][..0] == [];
    assert After(n, [a][..0]) == n;
    var n1 := After(n, [a]);
    assert n1 == Next(n, a);
    assert n1.processes[p] == q.(view := MergedAll(q.view, msg.events), handling := q.handling + multiset{msg});
    assert q.handling + multiset{msg} - multiset{msg} == q.handling;
  }

  /** A process that announces itself becomes known where the announcement arrives. */
  lemma AnnouncementIntroduces(n: Network, p: nat, to: nat)
    requires p < |n.processes| && to < |n.processes| && n.processes[p].addr != ""
    requires n.processes[p].addr !in n.processes[to].view.members
    ensures Enabled(Next(n, Announce(p, to)), Receive(|n.flight|))
    ensures var q, n' := n.processes[p], Next(Next(n, Announce(p, to)), Receive(|n.flight|));
            && q.addr in n'.processes[to].view.members
            && n'.processes[to].view.members[q.addr] == Info(q.httpAddr, Alive, 0, 0)
            && n'.flight == n.flight
  {
    var q, n1 := n.processes[p], Next(n, Announce(p, to));
    var es := n1.flight[|n.flight|].msg.events;
    assert es[..0] == [] && es == [es[0]];
    assert MergedAll(n.processes[to].view, es[..0]) == n.processes[to].view;
    assert MergedAll(n.processes[to].view, es) == Merged(n.processes[to].view, es[0]);
    assert WithoutPacket(n1, |n.flight|).flight == n.flight;
  }

  /** An alive member that an unconfirmed probe was about dies with the first check past the timeout. */
  lemma SuspectDies(n: Network, p: nat, target: string, now: int, later: int, timeout: int)
    requires p < |n.processes| && target in n.processes[p].view.members
    requires n.processes[p].view.members[target].status == Alive && later - now > timeout
    ensures var n1 := Next(n, ProbeFails(p, target, now));
            var n2 := Next(n1, Expire(p, target, later, timeout));
            var m, v := n.processes[p].view.members[target], n2.processes[p].view;
            && n1.processes[p].view.members[target].status == Suspect
            && target in v.members && v.members[target].status == Dead
            && v.pending == n.processes[p].view.pending + [Gossip(Death, target, m.httpAddr, 10, m.incarnation)]
            && n2.originated == n.originated + 1 && n2.flight == n.flight
  {
  }

  /** A process that restarts has the view it starts with and no message half handled; the others go on. */
  lemma RestartForgets(n: Network, p: nat, view: View, q: nat)
    requires p < |n.processes| && q < |n.processes| && view.pending == []
    ensures var n' := Next(n, Restart(p, view));
            && n'.flight == n.flight
            && (p == q ==> n'.processes[q] == n.processes[q].(view := view, handling := multiset{}))
            && (p != q ==> n'.processes[q] == n.processes[q])
  {
  }

  /** A ping carries the oldest queued events, at most four, and they leave the queue. */
  lemma PingCarries(n: Network, p: nat, to: nat)
    requires p < |n.processes|
    ensures var n' := Next(n, SendPing(p, to));
            && |n'.flight| == |n.flight| + 1 && n'.flight[|n.flight|].to == to
            && n'.flight[|n.flight|].msg.kind == Ping
            && var events := n'.flight[|n.flight|].msg.events;
               && events + n'.processes[p].view.pending == n.processes[p].view.pending
               && |events| == if |n.processes[p].view.pending| < 4 then |n.processes[p].view.pending| else 4
  {
  }

  /** Nothing queued, nothing under way, nothing counted. */
  ghost predicate Initial(n: Network) {
    && (forall p :: 0 <= p < |n.processes| ==> n.processes[p].view.pending == [])
    && n.flight == [] && n.originated == 0 && n.received == 0
  }

  // ----- the potential -----

  /** How many times an event may still be received. */
  function Weight(e: Gossip): nat {
    if e.ttl < 0 then 0 else e.ttl + 1
  }

  function Weights(es: seq<Gossip>): nat {
    if es == [] then 0 else Weights(es[..|es| - 1]) + Weight(es[|es| - 1])
  }

  function FlightWeight(packets: seq<Packet>): nat {
    if packets == [] then 0
    else FlightWeight(packets[..|packets| - 1]) + Weights(packets[|packets| - 1].msg.events)
  }

  function QueueWeight(processes: seq<Process>): nat {
    if processes == [] then 0
    else QueueWeight(processes[..|processes| - 1]) + Weights(processes[|processes| - 1].view.pending)
  }

  /** No TTL is negative; the check in `mergeEvents` keeps it so. */
  ghost predicate Live(es: seq<Gossip>) {
    forall i :: 0 <= i < |es| ==> es[i].ttl >= 0
  }

  lemma {:induction false} WeightsConcat(a: seq<Gossip>, b: seq<Gossip>)
    ensures Weights(a + b) == Weights(a) + Weights(b)
  {
    if b == [] {
      assert a + b == a;
    } else {
      var n := |b| - 1;
      assert (a + b)[..|a + b| - 1] == a + b[..n];
      WeightsConcat(a, b[..n]);
    }
  }

  lemma {:induction false} FlightConcat(a: seq<Packet>, b: seq<Packet>)
    ensures FlightWeight(a + b) == FlightWeight(a) + FlightWeight(b)
  {
    if b == [] {
      assert a + b == a;
    } else {
      var n := |b| - 1;
      assert (a + b)[..|a + b| - 1] == a + b[..n];
      FlightConcat(a, b[..n]);
    }
  }

  lemma {:induction false} FlightRemove(packets: seq<Packet>, i: nat)
    requires i < |packets|
    ensures FlightWeight(packets) ==
            FlightWeight(packets[..i] + packets[i + 1..]) + Weights(packets[i].msg.events)
  {
    var a, b := packets[..i], packets[i + 1..];
    assert packets == packets[..i + 1] + b;
    assert packets[..i + 1][..i] == a;
    FlightConcat(packets[..i + 1], b);
    FlightConcat(a, b);
  }

  lemma {:induction false} FlightAdd(packets: seq<Packet>, x: Packet)
    ensures FlightWeight(packets + [x]) == FlightWeight(packets) + Weights(x.msg.events)
    ensures FlightLive(packets) && Live(x.msg.events) ==> FlightLive(packets + [x])
  {
    assert (packets + [x])[..|packets|] == packets;
  }

  lemma {:induction false} QueueUpdate(processes: seq<Process>, p: nat, q: Process)
    requires p < |processes|
    ensures QueueWeight(processes[p := q]) + Weights(processes[p].view.pending) ==
            QueueWeight(processes) + Weights(q.view.pending)
  {
    var n := |processes| - 1;
    if p < n {
      QueueUpdate(processes[..n], p, q);
      assert processes[p := q][..n] == processes[..n][p := q];
    } else {
      assert processes[p := q][..n] == processes[..n];
    }
  }

  /** Merging one event queues at most that event with a lower TTL. */
  lemma MergeLowers(v: View, e: Gossip)
    requires e.ttl >= 0 && Live(v.pending)
    ensures Live(Merged(v, e).pending)
    ensures Weights(Merged(v, e).pending) + 1 <= Weights(v.pending) + Weight(e)
  {
    var after := Merged(v, e).pending;
    if after != v.pending {
      assert after[..|v.pending|] == v.pending;
    }
  }

  lemma {:induction false} MergeAllLowers(v: View, es: seq<Gossip>)
    requires Live(es) && Live(v.pending)
    ensures Live(MergedAll(v, es).pending)
    ensures Weights(MergedAll(v, es).pending) + |es| <= Weights(v.pending) + Weights(es)
  {
    if es != [] {
      var n := |es| - 1;
      MergeAllLowers(v, es[..n]);
      MergeLowers(MergedAll(v, es[..n]), es[n]);
    }
  }

  /** Draining moves weight from the queue into a message. */
  lemma DrainKeeps(v: View)
    requires Live(v.pending)
    ensures Live(Drained(v).pending) && Live(v.pending[..DrainSize(v.pending)])
    ensures Weights(v.pending) == Weights(v.pending[..DrainSize(v.pending)]) + Weights(Drained(v).pending)
  {
    var k := DrainSize(v.pending);
    assert v.pending == v.pending[..k] + v.pending[k..];
    WeightsConcat(v.pending[..k], v.pending[k..]);
  }

  const HOPS := EVENT_TTL + 1

  ghost predicate QueuesLive(processes: seq<Process>) {
    forall p :: 0 <= p < |processes| ==> Live(processes[p].view.pending)
  }

  ghost predicate FlightLive(packets: seq<Packet>) {
    forall i :: 0 <= i < |packets| ==> Live(packets[i].msg.events)
  }

  /** What has been received and what may still be is paid for by what was originated. */
  ghost predicate Bounded(n: Network) {
    && QueuesLive(n.processes) && FlightLive(n.flight)
    && n.received + FlightWeight(n.flight) + QueueWeight(n.processes) <= HOPS * n.originated
  }

  lemma {:induction false} SingleWeight(e: Gossip, rest: seq<Gossip>)
    ensures Weights([e] + rest) == Weight(e) + Weights(rest)
  {
    WeightsConcat([e], rest);
    assert Weights([e][..0]) == 0;
  }

  lemma AnnounceBounded(n: Network, p: nat, to: nat)
    requires Bounded(n) && p < |n.processes|
    ensures Bounded(Next(n, Announce(p, to)))
  {
    var q := n.processes[p];
    var join := Gossip(Join, q.addr, q.httpAddr, EVENT_TTL, 0);
    SingleWeight(join, []);
    assert [join] + [] == [join];
    var packet := Packet(to, Message(Ping, q.addr, "", [join]));
    FlightAdd(n.flight, packet);
    var n' := Next(n, Announce(p, to));
    assert n'.flight == n.flight + [packet] && n'.processes == n.processes;
    assert Weights([join]) == HOPS;
  }

  /** Changing one queue changes the total by as much. */
  lemma QueueBounded(n: Network, p: nat, view: View, handling: multiset<Message>)
    requires p < |n.processes| && Live(view.pending) && QueuesLive(n.processes)
    ensures var n' := WithProcess(n, p, view, handling);
            && QueuesLive(n'.processes)
            && QueueWeight(n'.processes) + Weights(n.processes[p].view.pending) ==
               QueueWeight(n.processes) + Weights(view.pending)
  {
    QueueUpdate(n.processes, p, n.processes[p].(view := view, handling := handling));
  }

  lemma SendPingBounded(n: Network, p: nat, to: nat)
    requires Bounded(n) && p < |n.processes|
    ensures Bounded(Next(n, SendPing(p, to)))
  {
    var q := n.processes[p];
    DrainKeeps(q.view);
    QueueBounded(n, p, Drained(q.view), q.handling);
    FlightAdd(n.flight, Packet(to, Message(Ping, q.addr, "", q.view.pending[..DrainSize(q.view.pending)])));
  }

  lemma LoseBounded(n: Network, i: nat)
    requires Bounded(n) && i < |n.flight|
    ensures Bounded(WithoutPacket(n, i))
    ensures FlightWeight(n.flight) == FlightWeight(WithoutPacket(n, i).flight) + Weights(n.flight[i].msg.events)
  {
    FlightRemove(n.flight, i);
  }

  lemma SendEmptyBounded(n: Network, to: nat, msg: Message)
    requires Bounded(n) && msg.events == []
    ensures Bounded(Sent(n, to, msg))
  {
    FlightAdd(n.flight, Packet(to, msg));
  }

  lemma ReceiveBounded(n: Network, i: nat)
    requires Bounded(n) && Enabled(n, Receive(i))
    ensures Bounded(Next(n, Receive(i)))
  {
    var msg, p := n.flight[i].msg, n.flight[i].to;
    var q := n.processes[p];
    var rest := WithoutPacket(n, i);
    assert Live(q.view.pending) && Live(msg.events);
    LoseBounded(n, i);
    MergeAllLowers(q.view, msg.events);
    QueueBounded(rest, p, MergedAll(q.view, msg.events), q.handling + multiset{msg});
  }

  lemma AnswerBounded(n: Network, p: nat, msg: Message, incarnation: nat, to: nat)
    requires Bounded(n) && Enabled(n, Answer(p, msg, incarnation, to))
    ensures Bounded(Next(n, Answer(p, msg, incarnation, to)))
  {
    var q := n.processes[p];
    var drained := q.view.pending[..DrainSize(q.view.pending)];
    var self := Gossip(Join, q.addr, q.httpAddr, EVENT_TTL, incarnation);
    DrainKeeps(q.view);
    QueueBounded(n, p, Drained(q.view), q.handling - multiset{msg});
    SingleWeight(self, drained);
    assert Live([self] + drained);
    FlightAdd(n.flight, Packet(to, Acknowledgement(q.view, q.addr, q.httpAddr, incarnation)));
  }

  lemma ExpireBounded(n: Network, p: nat, addr: string, now: int, timeout: int)
    requires Bounded(n) && p < |n.processes|
    ensures Bounded(Next(n, Expire(p, addr, now, timeout)))
  {
    var v := n.processes[p].view;
    var v' := Expired(v, addr, now, timeout);
    if v'.pending != v.pending {
      assert v'.pending[..|v.pending|] == v.pending;
    }
    QueueBounded(n, p, v', n.processes[p].handling);
  }

  lemma NextBounded(n: Network, step: Step)
    requires Bounded(n) && Enabled(n, step)
    ensures Bounded(Next(n, step))
  {
    match step {
      case Announce(p, to) => AnnounceBounded(n, p, to);
      case SendPing(p, to) => SendPingBounded(n, p, to);
      case SendPingReq(p, to, target) =>
        SendEmptyBounded(n, to, Message(PingReq, n.processes[p].addr, target, []));
      case SendRelayedAck(p, to) => SendEmptyBounded(n, to, Message(Ack, n.processes[p].addr, "", []));
      case Receive(i) => ReceiveBounded(n, i);
      case Answer(p, msg, incarnation, to) => AnswerBounded(n, p, msg, incarnation, to);
      case Refute(p, msg) =>
        var q := n.processes[p];
        QueueBounded(n, p, Refuted(q.view, msg.from), q.handling - multiset{msg});
      case Relay(p, msg) =>
        QueueBounded(n, p, n.processes[p].view, n.processes[p].handling - multiset{msg});
      case Lose(i) => LoseBounded(n, i);
      case ProbeFails(p, target, now) =>
        QueueBounded(n, p, Suspected(n.processes[p].view, target, now), n.processes[p].handling);
      case Expire(p, addr, now, timeout) => ExpireBounded(n, p, addr, now, timeout);
      case Restart(p, view) => QueueBounded(n, p, view, multiset{});
    }
  }

  lemma {:induction false} InitialQueues(processes: seq<Process>)
    requires forall p :: 0 <= p < |processes| ==> processes[p].view.pending == []
    ensures QueueWeight(processes) == 0
  {
    if processes != [] {
      InitialQueues(processes[..|processes| - 1]);
    }
  }

  /**
  Gossip is bounded: over every run, with any delays, losses, timers and restarts, at
  most eventTTL + 1 events are received for each event originated.
  */
  lemma {:induction false} GossipBounded(n: Network, steps: seq<Step>)
    requires Initial(n)
    ensures Bounded(After(n, steps))
    ensures After(n, steps).received <= 11 * After(n, steps).originated
  {
    if steps == [] {
      InitialQueues(n.processes);
    } else {
      var k := |steps| - 1;
      GossipBounded(n, steps[..k]);
      var before := After(n, steps[..k]);
      if Enabled(before, steps[k]) {
        NextBounded(before, steps[k]);
      }
    }
  }
}
