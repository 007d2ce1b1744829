/**
Write quorums: the gateway's fan-out with its one retry (cmd/gateway/main.go) and the
primary's own fan-out (cmd/node/main.go).

The network is an input: what each replica answers in an attempt, and the order in which
the answers arrive on the channel.
*/
module Quorum {
  import opened Sorting

  type Status = x: int | 100 <= x < 600 witness 200

  /** What a post to a replica comes to; an open breaker is a failure as well. */
  datatype Outcome = Answered(status: Status) | Failed

  const TOO_MANY_REQUESTS: Status := 429
  const CONFLICT: Status := 409
  const UNAVAILABLE: Status := 503
  const CREATED: Status := 201
  const OK: Status := 200

  predicate Successful(status: int) {
    status == 200 || status == 201 || status == 202 || status == 204
  }

  predicate Acknowledged(o: Outcome) {
    o.Answered? && Successful(o.status)
  }

  /** An attempt reaches these replicas, the first as primary, and gets these answers. */
  datatype Attempt = Attempt(replicas: seq<string>, reply: string -> Outcome)

  function Ackers(a: Attempt): set<string> {
    set r | r in a.replicas && Acknowledged(a.reply(r))
  }

  /** Zero stands for no answer, as in the zero value of `result`. */
  function PrimaryStatus(a: Attempt): int
    requires a.replicas != []
  {
    var o := a.reply(a.replicas[0]);
    if o.Answered? then o.status else 0
  }

  /** What the loop has counted after hearing from a part of the replicas. */
  function HeardAckers(reply: string -> Outcome, heard: seq<string>): set<string> {
    set r | r in heard && Acknowledged(reply(r))
  }

  /** `order` is some order of the replicas. */
  ghost predicate Arrives(order: seq<string>, replicas: seq<string>) {
    multiset(order) == multiset(replicas) && Distinct(replicas)
  }

  lemma HearOneMore(reply: string -> Outcome, order: seq<string>, k: nat)
    requires k < |order| && Distinct(order)
    ensures HeardAckers(reply, order[..k + 1]) ==
            HeardAckers(reply, order[..k]) + (if Acknowledged(reply(order[k])) then {order[k]} else {})
    ensures order[k] !in HeardAckers(reply, order[..k])
    ensures forall r :: r in order[..k + 1] <==> r in order[..k] || r == order[k]
  {
    assert order[..k + 1] == order[..k] + [order[k]];
  }

  /** Hearing from everyone is hearing from all replicas. */
  lemma HearAll(a: Attempt, order: seq<string>)
    requires Arrives(order, a.replicas)
    ensures Distinct(order) && |order| == |a.replicas|
    ensures HeardAckers(a.reply, order) == Ackers(a)
    ensures forall r :: r in order <==> r in a.replicas
  {
    PermutationDistinct(a.replicas, order);
    PermutationMembers(a.replicas, order);
  }

  lemma HeardIsPart(a: Attempt, order: seq<string>, k: nat)
    requires Arrives(order, a.replicas) && k <= |order|
    ensures HeardAckers(a.reply, order[..k]) <= Ackers(a)
    ensures |HeardAckers(a.reply, order[..k])| <= |Ackers(a)|
  {
    HearAll(a, order);
    assert forall r :: r in order[..k] ==> r in order;
    SubsetSize(HeardAckers(a.reply, order[..k]), Ackers(a));
  }

  lemma SubsetSize<T>(a: set<T>, b: set<T>)
    requires a <= b
    ensures |a| <= |b|
  {
    assert b == a + (b - a);
  }

  /** The counters of the loop after hearing from the first k replicas. */
  ghost predicate Counted(a: Attempt, order: seq<string>, k: nat, primaryStatus: int, acks: nat)
    requires a.replicas != [] && k <= |order|
  {
    && acks == |HeardAckers(a.reply, order[..k])|
    && primaryStatus == if a.replicas[0] in order[..k] then PrimaryStatus(a) else 0
  }

  /** One receive from the channel; only the goroutine of the primary passes the body on. */
  method Hear(a: Attempt, ghost order: seq<string>, ghost k: nat, from: string, status: int, acks: nat)
    returns (primaryStatus: int, newAcks: nat)
    requires a.replicas != [] && k < |order| && Distinct(order) && from == order[k]
    requires Counted(a, order, k, status, acks)
    ensures Counted(a, order, k + 1, primaryStatus, newAcks)
  {
    HearOneMore(a.reply, order, k);
    var res := a.reply(from);
    primaryStatus := if from == a.replicas[0] && res.Answered? then res.status else status;
    newAcks := if Acknowledged(res) then acks + 1 else acks;
  }

  /**
  The collecting loop of `send`. It stops early, yet the verdict does not depend on the
  order of arrival: it is that of waiting for every replica.
  */
  method Collect(a: Attempt, w: int, order: seq<string>) returns (primaryStatus: int, acks: nat)
    requires a.replicas != [] && Arrives(order, a.replicas)
    ensures primaryStatus == PrimaryStatus(a)
    ensures acks >= w <==> |Ackers(a)| >= w
    ensures acks <= |Ackers(a)|
  {
    HearAll(a, order);
    primaryStatus, acks := 0, 0;
    for k := 0 to |order|
      invariant Counted(a, order, k, primaryStatus, acks)
    {
      primaryStatus, acks := Hear(a, order, k, order[k], primaryStatus, acks);
      if acks >= w && primaryStatus != 0 {
        HeardIsPart(a, order, k + 1);
        return;
      }
    }
    assert order[..|order|] == order;
  }

  /** Go slices are indexed unchecked by the type system: an empty ring makes the handler panic. */
  datatype Response = Reply(status: int) | Panic

  /** Everything `handleEvent` meets after admission: three ring reads and two rounds of answers. */
  datatype Env = Env(
    first: seq<string>,
    search: seq<string>,
    second: seq<string>,
    overloaded: string -> bool,
    reply1: string -> Outcome,
    reply2: string -> Outcome,
    suspect: bool,
    bumped: bool)

  datatype Config = Config(w: int, primaryRepl: bool)

  function FirstIdle(replicas: seq<string>, overloaded: string -> bool): nat
    ensures FirstIdle(replicas, overloaded) <= |replicas|
  {
    if replicas == [] || !overloaded(replicas[0]) then 0 else 1 + FirstIdle(replicas[1..], overloaded)
  }

  /** The first replica that is not overloaded becomes the primary. */
  function IdleFirst(replicas: seq<string>, overloaded: string -> bool): seq<string> {
    var i := FirstIdle(replicas, overloaded);
    if i < |replicas| then replicas[0 := replicas[i]][i := replicas[0]] else replicas
  }

  /** A primary that replicates on its own is the only one the gateway talks to. */
  function Contacted(c: Config, replicas: seq<string>): seq<string> {
    if c.primaryRepl && replicas != [] then replicas[..1] else replicas
  }

  function FirstAttempt(c: Config, env: Env): Attempt {
    Attempt(Contacted(c, if c.primaryRepl then env.first else IdleFirst(env.first, env.overloaded)), env.reply1)
  }

  /** The first node that is not the dead one, if any. */
  function Successor(replicas: seq<string>, dead: string): seq<string> {
    if replicas == [] then [] else if replicas[0] != dead then [replicas[0]] else Successor(replicas[1..], dead)
  }

  function SecondReplicas(c: Config, env: Env): seq<string> {
    if c.primaryRepl && env.first != [] && env.suspect && env.bumped && Successor(env.search, env.first[0]) != []
    then Successor(env.search, env.first[0])
    else env.second
  }

  function SecondAttempt(c: Config, env: Env): Attempt {
    Attempt(Contacted(c, SecondReplicas(c, env)), env.reply2)
  }

  function Need(c: Config): int {
    if c.primaryRepl then 1 else c.w
  }

  /** Whether the first attempt is tried again. */
  predicate Retries(c: Config, a: Attempt)
    requires a.replicas != []
  {
    |Ackers(a)| < Need(c) && (PrimaryStatus(a) == CONFLICT || PrimaryStatus(a) == 0)
  }

  function Verdict(c: Config, a: Attempt): Response {
    if a.replicas == [] then Panic
    else if |Ackers(a)| < Need(c) || PrimaryStatus(a) == 0 then Reply(UNAVAILABLE)
    else Reply(PrimaryStatus(a))
  }

  /** The attempt that decides the answer. */
  function Decisive(c: Config, env: Env): Attempt {
    var a := FirstAttempt(c, env);
    if a.replicas != [] && Retries(c, a) then SecondAttempt(c, env) else a
  }

  method PreferIdle(replicas: seq<string>, overloaded: string -> bool) returns (r: seq<string>)
    ensures r == IdleFirst(replicas, overloaded)
  {
    r := replicas;
    for i := 0 to |replicas|
      invariant r == replicas
      invariant FirstIdle(replicas, overloaded) == i + FirstIdle(replicas[i..], overloaded)
    {
      assert replicas[i..][1..] == replicas[i + 1..];
      if !overloaded(replicas[i]) {
        r := replicas[0 := replicas[i]][i := replicas[0]];
        return;
      }
    }
  }

  lemma {:induction false} FirstIdleFound(replicas: seq<string>, overloaded: string -> bool)
    ensures var i := FirstIdle(replicas, overloaded);
            if i < |replicas| then !overloaded(replicas[i]) else forall r :: r in replicas ==> overloaded(r)
  {
    if replicas != [] {
      FirstIdleFound(replicas[1..], overloaded);
      assert replicas == [replicas[0]] + replicas[1..];
    }
  }

  lemma IdleFirstPermutes(replicas: seq<string>, overloaded: string -> bool)
    requires Distinct(replicas)
    ensures Distinct(IdleFirst(replicas, overloaded))
    ensures forall r :: r in IdleFirst(replicas, overloaded) <==> r in replicas
    ensures (exists r :: r in replicas && !overloaded(r)) ==> !overloaded(IdleFirst(replicas, overloaded)[0])
  {
    var i, r := FirstIdle(replicas, overloaded), IdleFirst(replicas, overloaded);
    FirstIdleFound(replicas, overloaded);
    if i < |replicas| {
      assert r[0] == replicas[i] && r[i] == replicas[0];
      forall x | x in replicas ensures x in r {
        var j :| 0 <= j < |replicas| && replicas[j] == x;
        assert r[if j == 0 then i else if j == i then 0 else j] == x;
      }
    }
  }

  /** One attempt: a single post, or the fan-out to all replicas. */
  method Send(c: Config, replicas: seq<string>, reply: string -> Outcome, order: seq<string>)
    returns (panic: bool, primaryStatus: int, acks: nat)
    requires Distinct(replicas) && Arrives(order, Contacted(c, replicas))
    ensures panic <==> replicas == []
    ensures !panic ==>
              var a := Attempt(Contacted(c, replicas), reply);
              && primaryStatus == PrimaryStatus(a)
              && (acks >= Need(c) <==> |Ackers(a)| >= Need(c))
  {
    if |replicas| == 0 {
      return true, 0, 0;
    }
    panic := false;
    if |replicas| == 1 || c.primaryRepl {
      SingleAcker(Attempt(replicas[..1], reply));
      assert Contacted(c, replicas) == replicas[..1];
      var res := reply(replicas[0]);
      primaryStatus := if res.Answered? then res.status else 0;
      acks := if Acknowledged(res) then 1 else 0;
      return;
    }
    primaryStatus, acks := Collect(Attempt(replicas, reply), c.w, order);
  }

  lemma SingleAcker(a: Attempt)
    requires |a.replicas| == 1
    ensures |Ackers(a)| == if Acknowledged(a.reply(a.replicas[0])) then 1 else 0
  {
    assert Ackers(a) == if Acknowledged(a.reply(a.replicas[0])) then {a.replicas[0]} else {};
  }

  /** The part of the gateway's `handleEvent` that follows admission. */
  method HandleEvent(c: Config, env: Env, order1: seq<string>, order2: seq<string>) returns (response: Response)
    requires Distinct(env.first) && Distinct(env.search) && Distinct(env.second)
    requires Arrives(order1, FirstAttempt(c, env).replicas) && Arrives(order2, SecondAttempt(c, env).replicas)
    ensures response == Verdict(c, Decisive(c, env))
  {
    IdleFirstPermutes(env.first, env.overloaded);
    var replicas := env.first;
    if !c.primaryRepl {
      replicas := PreferIdle(replicas, env.overloaded);
    }
    var need := if c.primaryRepl then 1 else c.w;
    var panic, primaryStatus, acks := Send(c, replicas, env.reply1, order1);
    if panic {
      return Panic;
    }
    if acks < need && primaryStatus != TOO_MANY_REQUESTS && (primaryStatus == CONFLICT || primaryStatus == 0) {
      var failedOver := false;
      if c.primaryRepl && |replicas| > 0 && env.suspect {
        if env.bumped {
          var next := FindSuccessor(env.search, replicas[0]);
          if next != [] {
            replicas, failedOver := next, true;
          }
        }
      }
      if !failedOver {
        replicas := env.second;
      }
      panic, primaryStatus, acks := Send(c, replicas, env.reply2, order2);
      if panic {
        return Panic;
      }
    }
    if acks < need {
      return Reply(UNAVAILABLE);
    }
    if primaryStatus == 0 {
      return Reply(UNAVAILABLE);
    }
    response := Reply(primaryStatus);
  }

  method FindSuccessor(replicas: seq<string>, dead: string) returns (next: seq<string>)
    ensures next == Successor(replicas, dead) && |next| <= 1
  {
    next := [];
    for i := 0 to |replicas|
      invariant Successor(replicas, dead) == Successor(replicas[i..], dead) && next == []
    {
      assert replicas[i..][1..] == replicas[i + 1..];
      if replicas[i] != dead {
        return [replicas[i]];
      }
    }
  }

  // ----- what an answer means -----

  lemma {:induction false} SuccessorMember(replicas: seq<string>, dead: string)
    ensures |Successor(replicas, dead)| <= 1
    ensures forall r :: r in Successor(replicas, dead) ==> r in replicas && r != dead
  {
    if replicas != [] {
      SuccessorMember(replicas[1..], dead);
    }
  }

  /** The gateway answered the write with success. */
  predicate Succeeded(c: Config, env: Env) {
    var v := Verdict(c, Decisive(c, env));
    v.Reply? && Successful(v.status)
  }

  /**
  A successful answer means a write quorum, and nothing less gets one: in the attempt
  that decides, at least as many distinct replicas of the key as needed acknowledged,
  the addressed primary among them.
  */
  lemma SuccessIsQuorum(c: Config, env: Env)
    requires Distinct(env.first) && Distinct(env.search) && Distinct(env.second)
    ensures var a := Decisive(c, env);
            && (Succeeded(c, env) <==>
                  a.replicas != [] && a.replicas[0] in Ackers(a) && |Ackers(a)| >= Need(c))
            && (forall r :: r in Ackers(a) ==> r in env.first || r in env.search || r in env.second)
  {
    IdleFirstPermutes(env.first, env.overloaded);
    if env.first != [] {
      SuccessorMember(env.search, env.first[0]);
    }
  }
}
