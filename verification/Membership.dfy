/**
The member table and the gossip queue of one SWIM process (internal/membership/
membership.go). Messages, timers and probe outcomes are inputs. Each function on `View` is
what one locked section does; `HandleMsg` is several of them, with
whatever other goroutines do in between.
*/
module Membership {
  import opened Wrappers

  const EVENT_TTL := 10
  const DRAIN_MAX := 4

  datatype Status = Alive | Suspect | Dead

  datatype Info = Info(httpAddr: string, status: Status, suspectAt: int, incarnation: nat)

  datatype Kind = Join | Death | Unknown

  datatype Gossip = Gossip(kind: Kind, addr: string, httpAddr: string, ttl: int, incarnation: nat)

  type Table = map<string, Info>

  datatype View = View(members: Table, pending: seq<Gossip>)

  /** The table a process starts with: itself and its seeds, whose HTTP addresses it does not know. */
  function NewTable(addr: string, httpAddr: string, seeds: seq<string>): Table {
    map a | a in [addr] + seeds :: Info(if a == addr then httpAddr else "", Alive, 0, 0)
  }

  lemma NewTableOneMore(addr: string, httpAddr: string, seeds: seq<string>, x: string)
    ensures NewTable(addr, httpAddr, seeds + [x]) ==
            if x == addr then NewTable(addr, httpAddr, seeds)
            else NewTable(addr, httpAddr, seeds)[x := Info("", Alive, 0, 0)]
  {
    assert forall a :: a in [addr] + (seeds + [x]) <==> a in [addr] + seeds || a == x;
  }

  /** The join of a member that is already in the table. */
  function Rejoined(m: Info, e: Gossip): Info {
    if m.httpAddr == "" && e.httpAddr != "" then
      m.(httpAddr := e.httpAddr, incarnation := e.incarnation)
    else if m.status != Alive then
      if e.incarnation <= m.incarnation then m
      else m.(status := Alive, httpAddr := e.httpAddr, incarnation := e.incarnation)
    else if e.incarnation > m.incarnation then m.(incarnation := e.incarnation)
    else m
  }

  /** A join about a member that is down, and not newer than what is known of it. */
  predicate StaleJoin(m: Info, e: Gossip) {
    !(m.httpAddr == "" && e.httpAddr != "") && m.status != Alive && e.incarnation <= m.incarnation
  }

  function Relayed(e: Gossip): Gossip {
    e.(ttl := e.ttl - 1)
  }

  /** One element of `mergeEvents`. */
  function Merged(v: View, e: Gossip): View {
    if e.addr == "" || e.ttl <= 0 then v
    else
      match e.kind
      case Join =>
        if e.addr !in v.members then
          View(v.members[e.addr := Info(e.httpAddr, Alive, 0, e.incarnation)], v.pending + [Relayed(e)])
        else if StaleJoin(v.members[e.addr], e) then v
        else View(v.members[e.addr := Rejoined(v.members[e.addr], e)], v.pending + [Relayed(e)])
      case Death =>
        if e.addr !in v.members || v.members[e.addr].status == Dead
           || e.incarnation < v.members[e.addr].incarnation then v
        else
          var m := v.members[e.addr];
          View(v.members[e.addr := m.(status := Dead)],
               v.pending + [Gossip(Death, e.addr, m.httpAddr, e.ttl - 1, m.incarnation)])
      case Unknown => v
  }

  function MergedAll(v: View, es: seq<Gossip>): View {
    if es == [] then v else Merged(MergedAll(v, es[..|es| - 1]), es[|es| - 1])
  }

  /** The part of the queue that one outgoing message carries. */
  function DrainSize(pending: seq<Gossip>): nat {
    if |pending| < DRAIN_MAX then |pending| else DRAIN_MAX
  }

  /** An ack of a suspected member refutes the suspicion. */
  function Refuted(v: View, from: string): View {
    if from in v.members && v.members[from].status == Suspect then
      var m := v.members[from];
      v.(members := v.members[from := m.(status := Alive, incarnation := m.incarnation + 1)])
    else v
  }

  /** A probe of `target` failed, directly and through helpers. */
  function Suspected(v: View, target: string, now: int): View {
    if target in v.members && v.members[target].status == Alive then
      v.(members := v.members[target := v.members[target].(status := Suspect, suspectAt := now)])
    else v
  }

  predicate TimedOut(m: Info, now: int, timeout: int) {
    m.status == Suspect && now - m.suspectAt > timeout
  }

  /** What one visit of `checkSuspects` does to a member. */
  function Expired(v: View, addr: string, now: int, timeout: int): View {
    if addr in v.members && TimedOut(v.members[addr], now, timeout) then
      var m := v.members[addr];
      View(v.members[addr := m.(status := Dead)],
           v.pending + [Gossip(Death, addr, m.httpAddr, EVENT_TTL, m.incarnation)])
    else v
  }

  function ExpiredAll(v: View, order: seq<string>, now: int, timeout: int): View {
    if order == [] then v
    else Expired(ExpiredAll(v, order[..|order| - 1], now, timeout), order[|order| - 1], now, timeout)
  }

  datatype MessageKind = Ping | Ack | PingReq

  datatype Message = Message(kind: MessageKind, from: string, target: string, events: seq<Gossip>)

  /** The incarnation with which a process announces itself in every ack. */
  function OwnIncarnation(v: View, addr: string): nat {
    if addr in v.members then v.members[addr].incarnation else 0
  }

  /** The answer to a ping: the join of the process itself, then what is drained. */
  function Acknowledgement(v: View, addr: string, httpAddr: string, incarnation: nat): Message {
    Message(Ack, addr, "", [Gossip(Join, addr, httpAddr, EVENT_TTL, incarnation)] + v.pending[..DrainSize(v.pending)])
  }

  /** ... with the incarnation that the table has at that moment. */
  function AckTo(v: View, addr: string, httpAddr: string): Message {
    Acknowledgement(v, addr, httpAddr, OwnIncarnation(v, addr))
  }

  function Drained(v: View): View {
    v.(pending := v.pending[DrainSize(v.pending)..])
  }

  /** Everything that can touch the table of one process. */
  datatype Step =
    | Gossiped(e: Gossip)
    | Acked(from: string)
    | Unconfirmed(target: string, now: int)
    | Checked(addr: string, now: int, timeout: int)
    | Drain

  function Next(v: View, step: Step): View {
    match step
    case Gossiped(e) => Merged(v, e)
    case Acked(from) => Refuted(v, from)
    case Unconfirmed(target, now) => Suspected(v, target, now)
    case Checked(addr, now, timeout) => Expired(v, addr, now, timeout)
    case Drain => Drained(v)
  }

  function After(v: View, steps: seq<Step>): View {
    if steps == [] then v else Next(After(v, steps[..|steps| - 1]), steps[|steps| - 1])
  }

  /**
  What a message leaves behind when other goroutines take the steps `others` after its
  events are merged, and `more` between the reading of the own incarnation and the drain.
  */
  function HandledAmid(v: View, msg: Message, others: seq<Step>, more: seq<Step>): View {
    var merged := MergedAll(v, msg.events);
    match msg.kind
    case Ping => Drained(After(After(merged, others), more))
    case Ack => Refuted(After(merged, others), msg.from)
    case PingReq => merged
  }

  /** What it leaves behind when nothing comes in between. */
  function Handled(v: View, msg: Message): View {
    HandledAmid(v, msg, [], [])
  }

  class Member {
    const addr: string
    const httpAddr: string
    const suspectTimeout: int
    var members: Table
    var pending: seq<Gossip>

    ghost predicate Valid()
      reads this
    {
      addr in members
    }

    ghost function State(): View
      reads this
    {
      View(members, pending)
    }

    /** The state that `New` sets up; announcing the process to its seeds is a step of `Gossip`. */
    constructor (addr: string, httpAddr: string, seeds: seq<string>, suspectTimeout: int)
      ensures Valid() && State() == View(NewTable(addr, httpAddr, seeds), [])
      ensures this.addr == addr && this.httpAddr == httpAddr && this.suspectTimeout == suspectTimeout
    {
      this.addr, this.httpAddr, this.suspectTimeout := addr, httpAddr, suspectTimeout;
      members, pending := map[addr := Info(httpAddr, Alive, 0, 0)], [];
      new;
      for i := 0 to |seeds|
        invariant pending == []
        invariant members == NewTable(addr, httpAddr, seeds[..i])
      {
        NewTableOneMore(addr, httpAddr, seeds[..i], seeds[i]);
        assert seeds[..i + 1] == seeds[..i] + [seeds[i]];
        if seeds[i] != addr {
          members := members[seeds[i] := Info("", Alive, 0, 0)];
        }
      }
      assert seeds[..|seeds|] == seeds;
    }

    method MergeEvents(events: seq<Gossip>)
      requires Valid()
      modifies this
      ensures Valid() && State() == MergedAll(old(State()), events)
    {
      for i := 0 to |events|
        invariant Valid() && State() == MergedAll(old(State()), events[..i])
      {
        assert events[..i + 1][..i] == events[..i];
        MergeEvent(events[i]);
      }
      assert events[..|events|] == events;
    }

    method MergeEvent(e: Gossip)
      requires Valid()
      modifies this
      ensures Valid() && State() == Merged(old(State()), e)
    {
      if e.addr == "" || e.ttl <= 0 {
        return;
      }
      match e.kind {
        case Join =>
          if e.addr !in members {
            members := members[e.addr := Info(e.httpAddr, Alive, 0, e.incarnation)];
          } else {
            var m := members[e.addr];
            if m.httpAddr == "" && e.httpAddr != "" {
              members := members[e.addr := m.(httpAddr := e.httpAddr, incarnation := e.incarnation)];
            } else if m.status != Alive {
              if e.incarnation <= m.incarnation {
                return;
              }
              members := members[e.addr := m.(status := Alive, httpAddr := e.httpAddr, incarnation := e.incarnation)];
            } else if e.incarnation > m.incarnation {
              members := members[e.addr := m.(incarnation := e.incarnation)];
            }
          }
          pending := pending + [Gossip(Join, e.addr, e.httpAddr, e.ttl - 1, e.incarnation)];
        case Death =>
          if e.addr !in members || members[e.addr].status == Dead {
            return;
          }
          var m := members[e.addr];
          if e.incarnation < m.incarnation {
            return;
          }
          members := members[e.addr := m.(status := Dead)];
          pending := pending + [Gossip(Death, e.addr, m.httpAddr, e.ttl - 1, m.incarnation)];
        case Unknown =>
      }
    }

    method DrainEvents() returns (out: seq<Gossip>)
      modifies this`pending
      ensures out == old(pending)[..DrainSize(old(pending))]
      ensures pending == old(pending)[DrainSize(old(pending))..]
    {
      if |pending| == 0 {
        return [];
      }
      var n := DRAIN_MAX;
      if |pending| < n {
        n := |pending|;
      }
      out := pending[..n];
      pending := pending[n..];
    }

    method Take(step: Step)
      requires Valid()
      modifies this
      ensures Valid() && State() == Next(old(State()), step)
    {
      match step {
        case Gossiped(e) => MergeEvent(e);
        case Acked(from) => Refute(from);
        case Unconfirmed(target, now) => ProbeFailed(target, now);
        case Checked(a, now, timeout) => CheckSuspect(a, now, timeout);
        case Drain => var _ := DrainEvents();
      }
    }

    /** Steps of other goroutines, in the order in which they get the lock. */
    method Interfere(steps: seq<Step>)
      requires Valid()
      modifies this
      ensures Valid() && State() == After(old(State()), steps)
    {
      for i := 0 to |steps|
        invariant Valid() && State() == After(old(State()), steps[..i])
      {
        assert steps[..i + 1][..i] == steps[..i];
        Take(steps[i]);
      }
      assert steps[..|steps|] == steps;
    }

    /**
    `handleMsg`, whose locked sections let other goroutines in between; the answer to a
    ping is returned, a relayed ping is sent elsewhere.
    */
    method HandleMsg(msg: Message, others: seq<Step>, more: seq<Step>) returns (reply: Option<Message>)
      requires Valid()
      modifies this
      ensures Valid()
      ensures State() == HandledAmid(old(State()), msg, others, more)
      ensures var seen := After(MergedAll(old(State()), msg.events), others);
              reply == if msg.kind.Ping? then
                         Some(Acknowledgement(After(seen, more), addr, httpAddr, OwnIncarnation(seen, addr)))
                       else None
    {
      MergeEvents(msg.events);
      reply := None;
      match msg.kind {
        case Ping =>
          Interfere(others);
          var selfInc := members[addr].incarnation;
          Interfere(more);
          var drained := DrainEvents();
          reply := Some(Message(Ack, addr, "", [Gossip(Join, addr, httpAddr, EVENT_TTL, selfInc)] + drained));
        case Ack =>
          Interfere(others);
          Refute(msg.from);
        case PingReq =>
      }
    }

    /** An ack of a suspected member. */
    method Refute(from: string)
      requires Valid()
      modifies this
      ensures Valid() && State() == Refuted(old(State()), from)
    {
      if from in members && members[from].status == Suspect {
        var m := members[from];
        members := members[from := m.(status := Alive, incarnation := m.incarnation + 1)];
      }
    }

    /** The end of a probe that nobody confirmed. */
    method ProbeFailed(target: string, now: int)
      requires Valid()
      modifies this
      ensures Valid() && State() == Suspected(old(State()), target, now)
    {
      if target in members && members[target].status == Alive {
        members := members[target := members[target].(status := Suspect, suspectAt := now)];
      }
    }

    /** One member on a tick of `checkSuspects`. */
    method CheckSuspect(a: string, now: int, timeout: int)
      requires Valid()
      modifies this
      ensures Valid() && State() == Expired(old(State()), a, now, timeout)
    {
      if a in members && TimedOut(members[a], now, timeout) {
        var m := members[a];
        members := members[a := m.(status := Dead)];
        pending := pending + [Gossip(Death, a, m.httpAddr, EVENT_TTL, m.incarnation)];
      }
    }

    /** One tick of `checkSuspects`; the table is visited in some order. */
    method CheckSuspects(now: int) returns (ghost order: seq<string>)
      requires Valid()
      modifies this
      ensures Valid() && State() == ExpiredAll(old(State()), order, now, suspectTimeout)
      ensures (forall i, j :: 0 <= i < j < |order| ==> order[i] != order[j])
      ensures forall a :: a in old(members) <==> a in order
    {
      order := [];
      var todo := members.Keys;
      while todo != {}
        invariant members.Keys == old(members).Keys && todo <= members.Keys
        invariant State() == ExpiredAll(old(State()), order, now, suspectTimeout)
        invariant forall i, j :: 0 <= i < j < |order| ==> order[i] != order[j]
        invariant forall a :: a in old(members) <==> a in order || a in todo
        invariant forall a :: a in order ==> a !in todo
        decreases todo
      {
        var a := Pick(todo);
        todo := todo - {a};
        CheckSuspect(a, now, suspectTimeout);
        assert (order + [a])[..|order|] == order;
        order := order + [a];
      }
    }
  }
}
