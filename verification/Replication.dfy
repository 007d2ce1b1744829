/**
Replication seen from the ring: quorums of one key intersect, and the fan-out with which
the primary of a key replicates to the other replicas itself (cmd/node/main.go).
*/
module Replication {
  import opened Wrappers
  import opened Sorting
  import opened Ring
  import opened RingProperties
  import opened Quorum

  lemma {:induction false} MembersBound(names: seq<string>)
    ensures |Members(names)| <= |names|
  {
    if names != [] {
      var n := |names| - 1;
      MembersBound(names[..n]);
      assert names == names[..n] + [names[n]];
      assert Members(names) == Members(names[..n]) + {names[n]};
    }
  }

  /** Two large enough parts of one list share an element. */
  lemma PartsIntersect(names: seq<string>, a: set<string>, b: set<string>)
    requires a <= Members(names) && b <= Members(names)
    requires |a| + |b| > |names|
    ensures a * b != {}
  {
    MembersBound(names);
    SubsetSize(a + b, Members(names));
    assert |a + b| + |a * b| == |a| + |b|;
  }

  /**
  With a fixed ring and 2w > rf, any two writes to a key that the gateways answered with
  success share a replica that acknowledged both.
  */
  lemma {:induction false} WritesShareReplica(points: seq<Point>, h: int, rf: nat, c: Config, env1: Env, env2: Env)
    returns (r: string)
    requires !c.primaryRepl && 2 * c.w > rf
    requires env1.first == env1.search == env1.second == ReplicaList(points, h, rf)
    requires env2.first == env2.search == env2.second == ReplicaList(points, h, rf)
    requires Succeeded(c, env1) && Succeeded(c, env2)
    ensures r in ReplicaList(points, h, rf)
    ensures Acknowledged(Decisive(c, env1).reply(r)) && Acknowledged(Decisive(c, env2).reply(r))
  {
    var names := ReplicaList(points, h, rf);
    FirstSeenDistinct(Lap(points, h));
    FrontOf(Preference(points, h), rf, rf);
    SuccessIsQuorum(c, env1);
    SuccessIsQuorum(c, env2);
    var a, b := Ackers(Decisive(c, env1)), Ackers(Decisive(c, env2));
    assert a <= Members(names) && b <= Members(names);
    PartsIntersect(names, a, b);
    r := Witness(a * b);
  }

  // ----- the primary's own fan-out -----

  /** The replicas the primary posts to: not itself, and not those it believes dead. */
  function Targets(replicas: seq<string>, self: string, live: Option<set<string>>): seq<string> {
    if replicas == [] then []
    else
      var before := Targets(replicas[..|replicas| - 1], self, live);
      var r := replicas[|replicas| - 1];
      if r == self || (live.Some? && r !in live.value) then before else before + [r]
  }

  lemma {:induction false} TargetsOf(replicas: seq<string>, self: string, live: Option<set<string>>)
    requires Distinct(replicas)
    ensures Distinct(Targets(replicas, self, live))
    ensures forall r :: r in Targets(replicas, self, live) ==> r in replicas && r != self
  {
    if replicas != [] {
      var n := |replicas| - 1;
      TargetsOf(replicas[..n], self, live);
      assert replicas == replicas[..n] + [replicas[n]];
      assert replicas[n] !in replicas[..n];
    }
  }

  ghost predicate Before(names: seq<string>, x: string, y: string) {
    exists i, j :: 0 <= i < j < |names| && names[i] == x && names[j] == y
  }

  /** The order of the replica list is kept. */
  ghost predicate KeepsOrder(part: seq<string>, whole: seq<string>) {
    forall a, b :: 0 <= a < b < |part| ==> Before(whole, part[a], part[b])
  }

  lemma BeforeSnoc(names: seq<string>, x: string, y: string, z: string)
    ensures Before(names, x, y) ==> Before(names + [z], x, y)
    ensures x in names ==> Before(names + [z], x, z)
  {
    var more := names + [z];
    if i, j :| 0 <= i < j < |names| && names[i] == x && names[j] == y {
      assert more[i] == x && more[j] == y;
    }
    if i :| 0 <= i < |names| && names[i] == x {
      assert more[i] == x && more[|names|] == z;
    }
  }

  /**
  Whom the primary posts to: exactly the replicas other than itself that it believes
  alive, or all of them when it knows nothing about liveness, in the order of the list.
  */
  lemma {:induction false} TargetsExact(replicas: seq<string>, self: string, live: Option<set<string>>)
    ensures forall r :: r in Targets(replicas, self, live) <==>
              r in replicas && r != self && (live.None? || r in live.value)
    ensures KeepsOrder(Targets(replicas, self, live), replicas)
  {
    if replicas != [] {
      var n := |replicas| - 1;
      var before, targets := Targets(replicas[..n], self, live), Targets(replicas, self, live);
      TargetsExact(replicas[..n], self, live);
      assert replicas == replicas[..n] + [replicas[n]];
      forall a, b | 0 <= a < b < |targets| ensures Before(replicas, targets[a], targets[b]) {
        assert targets[a] == before[a];
        BeforeSnoc(replicas[..n], targets[a], targets[b], replicas[n]);
        if b < |before| {
          assert Before(replicas[..n], before[a], before[b]);
        }
      }
    }
  }

  /** The replicas that acknowledge: not the primary itself, and none it believes dead. */
  function LiveAckers(replicas: seq<string>, self: string, live: Option<set<string>>, reply: string -> Outcome):
    set<string>
  {
    set r | r in replicas && r != self && (live.None? || r in live.value) && Acknowledged(reply(r))
  }

  lemma {:induction false} AckersAreLive(replicas: seq<string>, self: string, live: Option<set<string>>,
                                         reply: string -> Outcome)
    ensures Ackers(Attempt(Targets(replicas, self, live), reply)) == LiveAckers(replicas, self, live, reply)
  {
    TargetsExact(replicas, self, live);
  }

  /**
  `fanOutReplicate`: returns as soon as w - 1 others acknowledged, yet says exactly
  whether that many of all live other replicas do.
  */
  method FanOutReplicate(replicas: seq<string>, self: string, live: Option<set<string>>, w: int,
                         reply: string -> Outcome, order: seq<string>) returns (ok: bool)
    requires Distinct(replicas) && Arrives(order, Targets(replicas, self, live))
    ensures ok <==> |LiveAckers(replicas, self, live, reply)| >= w - 1
  {
    AckersAreLive(replicas, self, live, reply);
    var targets := [];
    for i := 0 to |replicas|
      invariant targets == Targets(replicas[..i], self, live)
    {
      assert replicas[..i + 1][..i] == replicas[..i];
      if replicas[i] == self {
        continue;
      }
      if live.Some? && replicas[i] !in live.value {
        continue;
      }
      targets := targets + [replicas[i]];
    }
    assert replicas[..|replicas|] == replicas;
    ok := AwaitAcks(Attempt(targets, reply), w - 1, order);
  }

  /** The waiting loop. */
  method AwaitAcks(a: Attempt, need: int, order: seq<string>) returns (ok: bool)
    requires Arrives(order, a.replicas)
    ensures ok <==> |Ackers(a)| >= need
  {
    HearAll(a, order);
    var acks := 0;
    for k := 0 to |order|
      invariant acks == |HeardAckers(a.reply, order[..k])|
    {
      HearOneMore(a.reply, order, k);
      HeardIsPart(a, order, k + 1);
      if Acknowledged(a.reply(order[k])) {
        acks := acks + 1;
      }
      if acks >= need {
        return true;
      }
    }
    assert order[..|order|] == order;
    ok := acks >= need;
  }

  /** The copies of an entry when its fan-out is over: the primary's own and the acknowledged ones. */
  function Copies(self: string, targets: Attempt): set<string> {
    {self} + Ackers(targets)
  }

  /** An entry has w copies exactly when w - 1 targets acknowledged; none of them is the primary. */
  lemma {:induction false} CopiesOf(replicas: seq<string>, self: string, live: Option<set<string>>,
                                    reply: string -> Outcome)
    requires Distinct(replicas)
    ensures var targets := Attempt(Targets(replicas, self, live), reply);
            && |Copies(self, targets)| == 1 + |Ackers(targets)|
            && forall r :: r in Copies(self, targets) && r != self ==> r in replicas && Acknowledged(reply(r))
  {
    TargetsOf(replicas, self, live);
    var ackers := Ackers(Attempt(Targets(replicas, self, live), reply));
    assert self !in ackers;
    assert |{self} + ackers| == 1 + |ackers|;
  }
}
