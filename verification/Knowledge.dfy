/**
What gossip teaches a process and what it passes on: who is known, what each step makes of
an entry, in which order the queue is sent, and how far an event travels.
*/
module Knowledge {
  import opened Wrappers
  import opened Membership
  import opened MembershipProperties

  // ----- who is known -----

  /** A join about `a` that is not ignored for its address or its TTL. */
  ghost predicate JoinComes(steps: seq<Step>, i: int, a: string) {
    0 <= i < |steps| && LiveJoin(steps[i], a)
  }

  /**
  Over every run, a member is known if and only if it was at the start or a live join
  about it has come; nobody is ever forgotten.
  */
  lemma {:induction false} KnownExact(v: View, steps: seq<Step>, a: string)
    ensures a in After(v, steps).members <==> a in v.members || exists i :: JoinComes(steps, i, a)
  {
    if steps != [] {
      var n := |steps| - 1;
      KnownExact(v, steps[..n], a);
      if i :| JoinComes(steps[..n], i, a) {
        assert JoinComes(steps, i, a);
      }
      if LiveJoin(steps[n], a) {
        assert JoinComes(steps, n, a);
      }
      if a in After(v, steps).members && !LiveJoin(steps[n], a) {
        assert a in After(v, steps[..n]).members;
      }
      if i :| JoinComes(steps, i, a) && i < n {
        assert JoinComes(steps[..n], i, a);
      }
    }
  }

  /**
  After every run, the first live join about an unknown member leaves it alive with the
  HTTP address and the incarnation of the join, which is queued one hop shorter.
  */
  lemma {:induction false} FirstJoinExact(v: View, steps: seq<Step>, e: Gossip)
    requires e.kind == Join && e.addr != "" && e.ttl > 0
    requires e.addr !in v.members && !exists i :: JoinComes(steps, i, e.addr)
    ensures var before, after := After(v, steps), After(v, steps + [Gossiped(e)]);
            && after.members == before.members[e.addr := Info(e.httpAddr, Alive, 0, e.incarnation)]
            && after.pending ==
               before.pending + [Gossip(Join, e.addr, e.httpAddr, e.ttl - 1, e.incarnation)]
  {
    KnownExact(v, steps, e.addr);
    AfterOneMore(v, steps, Gossiped(e));
  }

  // ----- what a step makes of an entry -----

  /** The step brings a dead or suspected member back: a newer join, or an ack of a suspect. */
  predicate Revives(v: View, step: Step, a: string) {
    || (NewerJoin(v, step, a) && v.members[a].status != Alive)
    || (step == Acked(a) && a in v.members && v.members[a].status == Suspect)
  }

  /** The step declares the member dead. */
  predicate Kills(v: View, step: Step, a: string) {
    && a in v.members && v.members[a].status != Dead
    && (DeathNews(v, step, a)
        || (step.Checked? && step.addr == a && v.members[a].status == Suspect
            && step.now - v.members[a].suspectAt > step.timeout))
  }

  /**
  The whole entry of a known member after a step, question by question. Of a step that is
  about another member, every answer is no.
  */
  lemma EntryExact(v: View, step: Step, a: string)
    requires a in v.members
    ensures a in Next(v, step).members
    ensures var m, m' := v.members[a], Next(v, step).members[a];
            && m'.status == (if Kills(v, step, a) then Dead else if Revives(v, step, a) then Alive
                             else if StartsSuspicion(v, step, a) then Suspect else m.status)
            && m'.suspectAt == (if StartsSuspicion(v, step, a) then step.now else m.suspectAt)
            && m'.httpAddr == (if FillsHttp(v, step, a) || (NewerJoin(v, step, a) && m.status != Alive)
                               then step.e.httpAddr else m.httpAddr)
            && m'.incarnation == (if FillsHttp(v, step, a) || NewerJoin(v, step, a) then step.e.incarnation
                                  else if step == Acked(a) && m.status == Suspect then m.incarnation + 1
                                  else m.incarnation)
  {
  }

  // ----- the queue -----

  /** The event a step puts into the queue, if any. */
  function Queued(v: View, step: Step): seq<Gossip> {
    match step
    case Gossiped(e) =>
      if LiveJoin(step, e.addr)
         && (e.addr !in v.members || FillsHttp(v, step, e.addr) || v.members[e.addr].status == Alive
             || NewerJoin(v, step, e.addr))
      then [Gossip(Join, e.addr, e.httpAddr, e.ttl - 1, e.incarnation)]
      else if Kills(v, step, e.addr)
      then [Gossip(Death, e.addr, v.members[e.addr].httpAddr, e.ttl - 1, v.members[e.addr].incarnation)]
      else []
    case Checked(a, _, _) =>
      if Kills(v, step, a) then [Gossip(Death, a, v.members[a].httpAddr, 10, v.members[a].incarnation)] else []
    case Acked(_) => []
    case Unconfirmed(_, _) => []
    case Drain => []
  }

  /** What a step takes out of the queue. */
  function Taken(v: View, step: Step): seq<Gossip> {
    if step.Drain? then v.pending[..if |v.pending| < 4 then |v.pending| else 4] else []
  }

  function AllQueued(v: View, steps: seq<Step>): seq<Gossip> {
    if steps == [] then []
    else
      var before := steps[..|steps| - 1];
      AllQueued(v, before) + Queued(After(v, before), steps[|steps| - 1])
  }

  function AllTaken(v: View, steps: seq<Step>): seq<Gossip> {
    if steps == [] then []
    else
      var before := steps[..|steps| - 1];
      AllTaken(v, before) + Taken(After(v, before), steps[|steps| - 1])
  }

  lemma QueueStep(v: View, step: Step)
    ensures Taken(v, step) + Next(v, step).pending == v.pending + Queued(v, step)
  {
    if step.Drain? {
      assert v.pending + Queued(v, step) == v.pending;
    } else {
      assert Taken(v, step) + Next(v, step).pending == Next(v, step).pending;
      if step.Gossiped? {
        QueuedByMerge(v, step.e);
      }
    }
  }

  lemma QueuedByMerge(v: View, e: Gossip)
    ensures Merged(v, e).pending == v.pending + Queued(v, Gossiped(e))
  {
    if Queued(v, Gossiped(e)) == [] {
      assert v.pending + [] == v.pending;
    }
  }

  /**
  The queue is first in, first out, over every run: what messages have taken so far,
  followed by what is left, is what was there followed by all that was put in.
  */
  lemma {:induction false} QueueFifo(v: View, steps: seq<Step>)
    ensures AllTaken(v, steps) + After(v, steps).pending == v.pending + AllQueued(v, steps)
  {
    if steps == [] {
      assert [] + v.pending == v.pending + [];
    } else {
      var n := |steps| - 1;
      var before := After(v, steps[..n]);
      QueueFifo(v, steps[..n]);
      QueueStep(before, steps[n]);
      Reassociate(AllTaken(v, steps[..n]), before.pending, v.pending, AllQueued(v, steps[..n]),
                  Taken(before, steps[n]), After(v, steps).pending, Queued(before, steps[n]));
    }
  }

  lemma Reassociate(taken: seq<Gossip>, mid: seq<Gossip>, start: seq<Gossip>, queued: seq<Gossip>,
                    more: seq<Gossip>, end: seq<Gossip>, put: seq<Gossip>)
    requires taken + mid == start + queued && more + end == mid + put
    ensures (taken + more) + end == start + (queued + put)
  {
    assert (taken + more) + end == taken + (more + end);
    assert taken + (mid + put) == (taken + mid) + put;
    assert (start + queued) + put == start + (queued + put);
  }

  /**
  The answer to a ping carries the process's own join, with its address, its HTTP address,
  a full TTL and the incarnation in the table, and then exactly what leaves the queue.
  */
  lemma AckCarries(v: View, addr: string, httpAddr: string)
    requires addr in v.members
    ensures var ack := AckTo(v, addr, httpAddr);
            && ack.kind == Ack && ack.from == addr
            && ack.events == [Gossip(Join, addr, httpAddr, 10, v.members[addr].incarnation)] + Taken(v, Drain)
            && ack.events[1..] + Drained(v).pending == v.pending
            && Drained(v).members == v.members
  {
    var ack := AckTo(v, addr, httpAddr);
    assert ack.events[1..] == Taken(v, Drain);
  }

  // ----- how far an event travels -----

  /** What a process with an empty queue passes on of an event. */
  function PassedOnBy(v: View, e: Gossip): seq<Gossip> {
    Merged(v.(pending := []), e).pending
  }

  /** The event that reaches the process at position i of a line, if any does. */
  function Reaching(line: seq<View>, e: Gossip, i: nat): Option<Gossip>
    requires i <= |line|
  {
    if i == 0 then Some(e)
    else
      var r := Reaching(line, e, i - 1);
      if r.None? || PassedOnBy(line[i - 1], r.value) == [] then None
      else Some(PassedOnBy(line[i - 1], r.value)[0])
  }

  /**
  News of a member travels exactly as many hops as its TTL says: along any line of
  processes that do not know it, the first `ttl` learn of it and no other does.
  */
  lemma {:induction false} TravelsTtlHops(line: seq<View>, e: Gossip, i: nat)
    requires e.kind == Join && e.addr != "" && e.ttl >= 0 && i < |line|
    requires forall k :: 0 <= k < |line| ==> e.addr !in line[k].members
    ensures Reaching(line, e, i) == if i <= e.ttl then Some(e.(ttl := e.ttl - i)) else None
    ensures Reaching(line, e, i).Some? && e.addr in Merged(line[i], Reaching(line, e, i).value).members <==> i < e.ttl
  {
    if i > 0 {
      TravelsTtlHops(line, e, i - 1);
      if i - 1 <= e.ttl {
        var r := e.(ttl := e.ttl - (i - 1));
        QueuedByMerge(line[i - 1].(pending := []), r);
      }
    }
  }
}
