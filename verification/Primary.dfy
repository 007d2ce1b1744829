/**
The write path of a node (cmd/node/main.go) when the primary of a key replicates itself:
what a success status says about the copies of the entry, derived from the log.
*/
module Primary {
  import opened Wrappers
  import opened Sorting
  import opened Dedup
  import opened EventLog
  import opened LogProperties
  import opened Partition
  import opened Quorum
  import opened Replication

  const NO_CONTENT: Status := 204

  /** The end of `handleEvent`: a fresh entry is replicated, a duplicate is not. */
  function EventStatus(isNew: bool, primaryRepl: bool, replicated: bool): Status {
    if !isNew then OK
    else if primaryRepl && !replicated then UNAVAILABLE
    else CREATED
  }

  /**
  What reaches the partition of a node: a write it is the primary of, or one that another
  primary posted after its own log had taken it as fresh. Either comes with the fan-out
  of its primary: the replicas of the key, those it believes alive and what they answer.
  */
  datatype Submission =
    | Event(call: Call, replicas: seq<string>, live: Option<set<string>>, reply: string -> Outcome)
    | Replicate(call: Call, sender: string,
                replicas: seq<string>, live: Option<set<string>>, reply: string -> Outcome)

  /** The primary whose log took the write first. */
  function Origin(sub: Submission, self: string): string {
    match sub
    case Event(_, _, _, _) => self
    case Replicate(_, sender, _, _, _) => sender
  }

  /** The posts the write is replicated with. */
  function FanOut(sub: Submission, self: string): Attempt {
    Attempt(Targets(sub.replicas, Origin(sub, self), sub.live), sub.reply)
  }

  /** What the primary hears back is enough for a 201. */
  predicate Reached(sub: Submission, self: string, w: int) {
    |Ackers(FanOut(sub, self))| >= w - 1
  }

  /** The nodes besides the primary that are known to have the entry: this one, and those that acknowledged. */
  function Others(sub: Submission, self: string): set<string> {
    Ackers(FanOut(sub, self)) + ({self} - {Origin(sub, self)})
  }

  /** The acknowledged copies, of the primary, of this node and of the others. */
  function CopiesAt(sub: Submission, self: string): set<string> {
    {self} + Copies(Origin(sub, self), FanOut(sub, self))
  }

  /** A replica list of the ring has no node twice, and a node is only sent what it is a target of. */
  ghost predicate WellRouted(sub: Submission, self: string) {
    Distinct(sub.replicas) && (sub.Replicate? ==> self in FanOut(sub, self).replicas)
  }

  function Calls(subs: seq<Submission>): seq<Call> {
    seq(|subs|, i requires 0 <= i < |subs| => subs[i].call)
  }

  /** Whether the log takes the n-th submission of a run. */
  predicate IsFresh(s: LogState, subs: seq<Submission>, n: nat)
    requires n < |subs|
  {
    ResultOf(s, Calls(subs), n).accepted
  }

  /** The answer to the n-th submission, when the primary replicates. */
  function StatusOf(s: LogState, subs: seq<Submission>, self: string, w: int, n: nat): Status
    requires n < |subs|
  {
    if subs[n].Replicate? then NO_CONTENT
    else EventStatus(IsFresh(s, subs, n), true, Reached(subs[n], self, w))
  }

  /** The last of the first n submissions that stored an entry with this id. */
  function StoredBy(s: LogState, subs: seq<Submission>, n: nat, id: string): Option<nat>
    requires n <= |subs|
  {
    if n == 0 then None
    else if subs[n - 1].call.req.id == id && IsFresh(s, subs, n - 1) then Some(n - 1)
    else StoredBy(s, subs, n - 1, id)
  }

  lemma {:induction false} StoredByExact(s: LogState, subs: seq<Submission>, n: nat, id: string)
    requires n <= |subs|
    ensures var j := StoredBy(s, subs, n, id);
            && (j.Some? ==> j.value < n && AcceptedAs(s, Calls(subs), j.value, id))
            && forall i :: (if j.Some? then j.value + 1 else 0) <= i < n ==> !AcceptedAs(s, Calls(subs), i, id)
  {
    if n > 0 {
      StoredByExact(s, subs, n - 1, id);
    }
  }

  /** A refused submission repeats one that was stored in the run, unless the log started with its id. */
  lemma {:induction false} DuplicateWasStored(s: LogState, subs: seq<Submission>, n: nat)
    requires n < |subs| && subs[n].call.req.id !in s.at
    ensures StoredBy(s, subs, n + 1, subs[n].call.req.id).Some?
  {
    var id := subs[n].call.req.id;
    if !IsFresh(s, subs, n) {
      RefusedIsRecent(s, Calls(subs), n);
      StoredByExact(s, subs, n, id);
    }
  }

  /**
  The answer to the n-th submission, read off the history and the replicas, in both modes:
  200 if and only if its id was accepted less than the TTL before; else 201, except that a
  primary that replicates says 503 when fewer than w - 1 live other replicas acknowledge.
  */
  lemma {:induction false} AnswerExact(s: LogState, subs: seq<Submission>, self: string, w: int, primaryRepl: bool,
                                       n: nat)
    requires !s.noIdempotent && Nondecreasing(Calls(subs))
    requires n < |subs| && subs[n].Event?
    ensures var id, cutoff := subs[n].call.req.id, Cutoff(subs[n].call.now);
            var recent := (id in s.at && s.at[id] > cutoff)
                          || exists j :: j < n && AcceptedAs(s, Calls(subs), j, id) && Unix(subs[j].call.now) > cutoff;
            var enough := |LiveAckers(subs[n].replicas, self, subs[n].live, subs[n].reply)| >= w - 1;
            EventStatus(IsFresh(s, subs, n), primaryRepl, Reached(subs[n], self, w)) ==
            if recent then 200 else if primaryRepl && !enough then 503 else 201
  {
    AckersAreLive(subs[n].replicas, self, subs[n].live, subs[n].reply);
    DedupExact(s, Calls(subs), n);
  }

  /**
  Whenever the node answers with success, its log took the id in this run, with this
  submission or less than the TTL before it, or had it from the start.
  */
  lemma {:induction false} SuccessMeansStored(s: LogState, subs: seq<Submission>, self: string, w: int, n: nat)
    requires n < |subs| && Successful(StatusOf(s, subs, self, w, n))
    ensures var id, cutoff := subs[n].call.req.id, Cutoff(subs[n].call.now);
            || (id in s.at && s.at[id] > cutoff)
            || exists j :: j <= n && AcceptedAs(s, Calls(subs), j, id) && Unix(subs[j].call.now) > cutoff
  {
    if IsFresh(s, subs, n) {
      assert AcceptedAs(s, Calls(subs), n, subs[n].call.req.id);
    } else {
      RefusedIsRecent(s, Calls(subs), n);
    }
  }

  /** The primary is not among its targets, so the others are one less than the copies. */
  lemma CopiesSize(sub: Submission, self: string)
    requires WellRouted(sub, self)
    ensures |CopiesAt(sub, self)| == 1 + |Others(sub, self)|
    ensures sub.Replicate? ==> Origin(sub, self) != self
  {
    var origin, others := Origin(sub, self), Others(sub, self);
    TargetsOf(sub.replicas, origin, sub.live);
    assert origin !in others;
    assert CopiesAt(sub, self) == {origin} + others;
  }

  /** A 201 of the primary means as many copies as were asked for, and nothing less gives them. */
  lemma EventCopies(sub: Submission, self: string, w: int)
    requires WellRouted(sub, self) && sub.Event?
    ensures |CopiesAt(sub, self)| >= w <==> Reached(sub, self, w)
  {
    CopiesSize(sub, self);
    assert Others(sub, self) == Ackers(FanOut(sub, self));
  }

  /** A posted entry has two copies at once; this node counts, whether or not the primary heard from it. */
  lemma PostedCopies(sub: Submission, self: string, w: int)
    requires WellRouted(sub, self) && sub.Replicate?
    ensures |CopiesAt(sub, self)| >= 2
    ensures |CopiesAt(sub, self)| >= w <==>
              Reached(sub, self, w) || (!Acknowledged(sub.reply(self)) && Reached(sub, self, w - 1))
  {
    CopiesSize(sub, self);
    var ackers := Ackers(FanOut(sub, self));
    assert Others(sub, self) == ackers + {self};
    if Acknowledged(sub.reply(self)) {
      assert self in ackers && ackers + {self} == ackers;
    } else {
      assert self !in ackers;
    }
  }

  /** A 201 means at least w copies, the primary's own among them, the others on replicas of the key. */
  lemma {:induction false} CreatedMeansQuorum(s: LogState, subs: seq<Submission>, self: string, w: int, n: nat)
    requires n < |subs| && WellRouted(subs[n], self)
    requires subs[n].Event? && StatusOf(s, subs, self, w, n) == CREATED
    ensures IsFresh(s, subs, n)
    ensures var copies := CopiesAt(subs[n], self);
            && |copies| >= w
            && self in copies
            && forall r :: r in copies && r != self ==> r in subs[n].replicas && Acknowledged(subs[n].reply(r))
  {
    CopiesOf(subs[n].replicas, self, subs[n].live, subs[n].reply);
    EventCopies(subs[n], self, w);
  }

  /**
  What a success of the primary means: for every run of submissions, every w and every
  replica list, when the n-th one is answered with success, the entry with its id was
  stored by some submission j up to n, and has at least w acknowledged copies if and only
  if the n-th one is fresh or w - 1 nodes besides the primary of j have it. If j was an
  event of this node, that is: if and only if j was answered 201. If it was posted by
  another primary there are always two, and w if and only if that primary heard from
  w - 1 targets, or would have but for the answer of this node.
  */
  lemma {:induction false} SuccessMeansCopiesExact(s: LogState, subs: seq<Submission>, self: string, w: int, n: nat)
    requires n < |subs| && subs[n].Event? && subs[n].call.req.id !in s.at
    requires forall i :: 0 <= i < |subs| ==> WellRouted(subs[i], self)
    requires Successful(StatusOf(s, subs, self, w, n))
    ensures var j := StoredBy(s, subs, n + 1, subs[n].call.req.id);
            && j.Some? && j.value <= n
            && AcceptedAs(s, Calls(subs), j.value, subs[n].call.req.id)
            && var sub, copies := subs[j.value], |CopiesAt(subs[j.value], self)|;
               && (copies >= w <==> IsFresh(s, subs, n) || |Others(sub, self)| >= w - 1)
               && (sub.Event? ==> (copies >= w <==> StatusOf(s, subs, self, w, j.value) == CREATED))
               && (sub.Replicate? ==>
                     && copies >= 2
                     && (copies >= w <==>
                           || Reached(sub, self, w)
                           || (!Acknowledged(sub.reply(self)) && Reached(sub, self, w - 1))))
  {
    var id := subs[n].call.req.id;
    DuplicateWasStored(s, subs, n);
    StoredByExact(s, subs, n + 1, id);
    var sub := subs[StoredBy(s, subs, n + 1, id).value];
    CopiesSize(sub, self);
    if sub.Event? {
      EventCopies(sub, self, w);
    } else {
      PostedCopies(sub, self, w);
    }
  }

  /**
  After a submission that was stored but answered 503, every later one with its id inside
  the TTL is refused by the log and answered 200, and the entry still has fewer than w
  acknowledged copies.
  */
  lemma {:induction false} RetryHidesFailure(s: LogState, subs: seq<Submission>, self: string, w: int, j: nat, n: nat)
    requires !s.noIdempotent && Nondecreasing(Calls(subs))
    requires j < n < |subs| && subs[j].Event? && subs[n].Event?
    requires WellRouted(subs[j], self)
    requires subs[j].call.req.id == subs[n].call.req.id
    requires StatusOf(s, subs, self, w, j) == UNAVAILABLE
    requires Unix(subs[j].call.now) > Cutoff(subs[n].call.now)
    ensures StatusOf(s, subs, self, w, n) == OK
    ensures StoredBy(s, subs, n + 1, subs[n].call.req.id) == Some(j)
    ensures |CopiesAt(subs[j], self)| < w
  {
    RepeatRefused(s, subs, j, n);
    EventCopies(subs[j], self, w);
  }

  lemma {:induction false} NotTakenAgain(s: LogState, calls: seq<Call>, j: nat, i: nat, id: string)
    requires !s.noIdempotent && Nondecreasing(calls) && j < i < |calls|
    requires AcceptedAs(s, calls, j, id) && Unix(calls[j].now) > Cutoff(calls[i].now)
    ensures !AcceptedAs(s, calls, i, id)
  {
    DedupExact(s, calls, i);
  }

  /** Inside the TTL of an accepted submission, every later one with its id is refused. */
  lemma {:induction false} RepeatRefused(s: LogState, subs: seq<Submission>, j: nat, n: nat)
    requires !s.noIdempotent && Nondecreasing(Calls(subs))
    requires j < n < |subs| && subs[j].call.req.id == subs[n].call.req.id && IsFresh(s, subs, j)
    requires Unix(subs[j].call.now) > Cutoff(subs[n].call.now)
    ensures !IsFresh(s, subs, n)
    ensures StoredBy(s, subs, n + 1, subs[n].call.req.id) == Some(j)
  {
    var id, calls := subs[n].call.req.id, Calls(subs);
    assert AcceptedAs(s, calls, j, id);
    forall i | j < i <= n ensures !AcceptedAs(s, calls, i, id) {
      assert calls[i].now <= calls[n].now;
      NotTakenAgain(s, calls, j, i, id);
    }
    StoredByExact(s, subs, n + 1, id);
  }

  /**
  End to end, when primaries replicate: if the attempt that decides the gateway's answer
  went to this node as its n-th submission, the gateway passes on what the node answered,
  and a 201 of the gateway means w acknowledged copies.
  */
  lemma {:induction false} GatewayCreatedMeansQuorum(c: Config, env: Env, s: LogState, subs: seq<Submission>,
                                                     self: string, w: int, n: nat)
    requires c.primaryRepl && Succeeded(c, env)
    requires Distinct(env.first) && Distinct(env.search) && Distinct(env.second)
    requires n < |subs| && subs[n].Event? && WellRouted(subs[n], self)
    requires Decisive(c, env).replicas != [] ==>
               && Decisive(c, env).replicas[0] == self
               && (Decisive(c, env).reply(self).Answered? ==>
                     Decisive(c, env).reply(self).status == StatusOf(s, subs, self, w, n))
    ensures Verdict(c, Decisive(c, env)) == Reply(StatusOf(s, subs, self, w, n))
    ensures Verdict(c, Decisive(c, env)) == Reply(CREATED) ==> |CopiesAt(subs[n], self)| >= w
  {
    SuccessIsQuorum(c, env);
    if StatusOf(s, subs, self, w, n) == CREATED {
      CreatedMeansQuorum(s, subs, self, w, n);
    }
  }

  /** Two identical events at a primary whose only fellow replica is down, one second apart. */
  function RetriedEvent(self: string, other: string, id: string): seq<Submission> {
    [Event(Call(Request(id, "k", []), 0), [self, other], None, _ => Failed),
     Event(Call(Request(id, "k", []), SECOND), [self, other], None, _ => Failed)]
  }

  /** With w = 2 the first is answered 503 and the second 200, and the only copy is the primary's. */
  lemma {:induction false} DuplicateSkipsQuorum(self: string, other: string, id: string)
    requires self != other
    ensures var s, subs := Reopened(None, 0), RetriedEvent(self, other, id);
            && StatusOf(s, subs, self, 2, 0) == UNAVAILABLE
            && StatusOf(s, subs, self, 2, 1) == OK
            && StoredBy(s, subs, 2, id) == Some(0)
            && CopiesAt(subs[0], self) == {self}
  {
    var s, subs := Reopened(None, 0), RetriedEvent(self, other, id);
    assert Ackers(FanOut(subs[0], self)) == {};
    assert IsFresh(s, subs, 0) by {
      assert AfterAppends(s, Calls(subs)[..0]) == s;
    }
    RetryHidesFailure(s, subs, self, 2, 0, 1);
  }

  /** Another primary posted the entry to this node and died; one second later the event comes here. */
  function FailOver(self: string, former: string, id: string): seq<Submission> {
    [Replicate(Call(Request(id, "k", []), 0), former, [former, self], None, _ => Failed),
     Event(Call(Request(id, "k", []), SECOND), [former, self], None, _ => Failed)]
  }

  /** The repeated event is answered 200, and the entry has two copies. */
  lemma {:induction false} FailOverKeepsTwoCopies(self: string, former: string, id: string)
    requires self != former
    ensures var s, subs := Reopened(None, 0), FailOver(self, former, id);
            && StatusOf(s, subs, self, 2, 1) == OK
            && StoredBy(s, subs, 2, id) == Some(0)
            && CopiesAt(subs[0], self) == {self, former}
  {
    var s, subs := Reopened(None, 0), FailOver(self, former, id);
    assert IsFresh(s, subs, 0) by {
      assert AfterAppends(s, Calls(subs)[..0]) == s;
    }
    RepeatRefused(s, subs, 0, 1);
    assert Ackers(FanOut(subs[0], self)) == {};
  }

  class Primary {
    const partition: Partition
    const self: string
    const w: int
    const primaryRepl: bool

    constructor (partition: Partition, self: string, w: int, primaryRepl: bool)
      ensures this.partition == partition && this.self == self && this.w == w && this.primaryRepl == primaryRepl
    {
      this.partition, this.self, this.w, this.primaryRepl := partition, self, w, primaryRepl;
    }

    /** `handleEvent` from the partition on; a duplicate is answered with the offset of the zero entry. */
    method HandleEvent(req: Request, replicas: seq<string>, live: Option<set<string>>, reply: string -> Outcome,
                       order: seq<string>, now: int)
      returns (status: Status, offset: nat)
      requires partition.Valid() && Distinct(replicas)
      requires Arrives(order, Targets(replicas, self, live))
      modifies partition.log, partition.log.dedup, partition.log.disk, partition.agg
      ensures partition.Valid()
      ensures partition.State() == Applied(old(partition.State()), partition.agg.window, Call(req, now))
      ensures var r := Appended(old(partition.log.State()), Call(req, now));
              && (status == 200 || status == 201 || status == 503)
              && (status == 200 <==> !r.accepted)
              && (status == 503 <==>
                    r.accepted && primaryRepl && |LiveAckers(replicas, self, live, reply)| < w - 1)
              && offset == r.entry.offset
    {
      var results := partition.ApplyOne(req, now);
      SingleApply(old(partition.State()), partition.agg.window, Call(req, now));
      assert CallsAt([req], now) == [Call(req, now)];
      offset := results[0].entry.offset;
      if !results[0].accepted {
        return OK, offset;
      }
      if primaryRepl {
        var replicated := FanOutReplicate(replicas, self, live, w, reply, order);
        if !replicated {
          return UNAVAILABLE, offset;
        }
      }
      status := CREATED;
    }

    /** `handleReplicate` from the partition on: the same answer for a new entry and a known one. */
    method HandleReplicate(req: Request, now: int) returns (status: Status)
      requires partition.Valid()
      modifies partition.log, partition.log.dedup, partition.log.disk, partition.agg
      ensures partition.Valid() && status == NO_CONTENT
      ensures partition.State() == Applied(old(partition.State()), partition.agg.window, Call(req, now))
    {
      var _ := partition.ApplyOne(req, now);
      SingleApply(old(partition.State()), partition.agg.window, Call(req, now));
      assert CallsAt([req], now) == [Call(req, now)];
      status := NO_CONTENT;
    }
  }
}
