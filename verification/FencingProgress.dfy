/**
What the steps of epoch fencing achieve: which epoch reaches whom. Each lemma follows one
exchange from an arbitrary state; other steps may come before and after it.
*/
module FencingProgress {
  import opened Wrappers
  import opened Epoch
  import opened Fencing

  /** The first steps of the run are enabled one after another. */
  predicate Runs(s: System, steps: seq<Step>)
    decreases |steps|
  {
    steps == [] || (Enabled(s, steps[0]) && Runs(Next(s, steps[0]), steps[1..]))
  }

  function Outcome(s: System, steps: seq<Step>): System
    requires Runs(s, steps)
    decreases |steps|
  {
    if steps == [] then s else Outcome(Next(s, steps[0]), steps[1..])
  }

  lemma {:induction false} OneStep(s: System, step: Step, rest: seq<Step>)
    requires Enabled(s, step) && Runs(Next(s, step), rest)
    ensures Runs(s, [step] + rest) && Outcome(s, [step] + rest) == Outcome(Next(s, step), rest)
  {
    assert ([step] + rest)[1..] == rest;
  }

  /** A write of gateway g that is sent with its epoch and gets through. */
  lemma {:induction false} WriteGoesThrough(s: System, g: nat, n: nat, persisted: bool)
    requires Serving(s, g) && n in s.nodes && s.nodes[n].fencer.seen <= s.gateways[g].epoch
    ensures var e := s.gateways[g].epoch;
            var run := [Send(g, n)] + ([CheckWrite(g, n, e, persisted)] + []);
            && Runs(s, run)
            && var s' := Outcome(s, run);
               && s'.gateways == s.gateways && s'.store == s.store && n in s'.nodes
               && s'.nodes[n].accepted == s.nodes[n].accepted + [e]
               && s'.nodes[n].fencer.seen == e
  {
    var e := s.gateways[g].epoch;
    var s1 := Next(s, Send(g, n));
    OneStep(s1, CheckWrite(g, n, e, persisted), []);
    OneStep(s, Send(g, n), [CheckWrite(g, n, e, persisted)] + []);
  }

  /**
  A gateway that starts with the answer to its poll holds the control plane's epoch of
  that moment, and its next write passes every node that has seen nothing newer.
  */
  lemma {:induction false} StartedGatewayWrites(s: System, g: nat, n: nat, persisted: bool)
    requires g in s.gateways && s.gateways[g].starting && n in s.nodes
    requires s.nodes[n].fencer.seen <= Current(s.store.epochs, "_default")
    ensures var e := Current(s.store.epochs, "_default");
            var run := [Poll(g)] + ([StartWith(g, e)] +
                       ([Send(g, n)] + ([CheckWrite(g, n, e, persisted)] + [])));
            && Runs(s, run)
            && var s' := Outcome(s, run);
               && Serving(s', g) && s'.gateways[g] == Gateway(e, multiset{}, false)
               && n in s'.nodes && s'.nodes[n].accepted == s.nodes[n].accepted + [e]
  {
    var e := Current(s.store.epochs, "_default");
    var s1 := Next(s, Poll(g));
    var s2 := Next(s1, StartWith(g, e));
    WriteGoesThrough(s2, g, n, persisted);
    OneStep(s1, StartWith(g, e), [Send(g, n)] + ([CheckWrite(g, n, e, persisted)] + []));
    OneStep(s, Poll(g), [StartWith(g, e)] + ([Send(g, n)] + ([CheckWrite(g, n, e, persisted)] + [])));
  }

  /** A gateway that starts without the control plane has epoch zero and nothing left from before. */
  lemma StartedAlone(s: System, g: nat)
    requires g in s.gateways
    ensures Enabled(s, GatewayCrash(g)) && Enabled(Next(s, GatewayCrash(g)), StartWithout(g))
    ensures var s' := Next(Next(s, GatewayCrash(g)), StartWithout(g));
            && s'.gateways == s.gateways[g := Gateway(0, multiset{}, false)]
            && s'.nodes == s.nodes && s'.store == s.store && s'.messages == s.messages
  {
  }

  /** The steps from a bump to a write with the new epoch. */
  function BumpAndWrite(g: nat, n: nat, e: uint64, persisted: bool): seq<Step> {
    [BumpFor(g, true)] + ([CompareReply(g, e)] + ([Store(g, e)] +
      ([Send(g, n)] + ([CheckWrite(g, n, e, persisted)] + []))))
  }

  lemma BumpAnswers(s: System, g: nat, e: uint64)
    requires Serving(s, g) && e == Current(s.store.epochs, "_default") + 1
    ensures var s1 := Next(s, BumpFor(g, true));
            && EpochReply(g, e) in s1.messages && s1.gateways == s.gateways && s1.nodes == s.nodes
            && Current(s1.store.epochs, "_default") == e && LoadedStore(s1.store.file).epochs == s1.store.epochs
  {
  }

  /** A newer epoch in a reply is compared and stored. */
  lemma ReplyIsStored(s: System, g: nat, e: uint64)
    requires Serving(s, g) && EpochReply(g, e) in s.messages && s.gateways[g].epoch < e
    ensures Enabled(s, CompareReply(g, e)) && Enabled(Next(s, CompareReply(g, e)), Store(g, e))
    ensures var s' := Next(Next(s, CompareReply(g, e)), Store(g, e));
            && Serving(s', g) && s'.gateways[g].epoch == e
            && s'.nodes == s.nodes && s'.store == s.store
  {
    assert e in Next(s, CompareReply(g, e)).gateways[g].storing;
  }

  /** A reply or a refusal that names nothing newer leaves the gateway as it is. */
  lemma StaleReplyIgnored(s: System, g: nat, e: uint64)
    requires Serving(s, g) && e <= s.gateways[g].epoch
    ensures Enabled(s, CompareReply(g, e)) ==> Next(s, CompareReply(g, e)).gateways == s.gateways
    ensures Enabled(s, CompareConflict(g, e)) ==> Next(s, CompareConflict(g, e)).gateways == s.gateways
  {
  }

  /**
  A bump takes effect: the gateway that asked for it stores the new epoch, its next write
  brings the node there, and the table on disk has it too.
  */
  lemma {:induction false} BumpTakesEffect(s: System, g: nat, n: nat, e: uint64, persisted: bool)
    requires Serving(s, g) && n in s.nodes
    requires e == Current(s.store.epochs, "_default") + 1
    requires s.gateways[g].epoch < e && s.nodes[n].fencer.seen <= e
    ensures Runs(s, BumpAndWrite(g, n, e, persisted))
    ensures var s' := Outcome(s, BumpAndWrite(g, n, e, persisted));
            && Serving(s', g) && s'.gateways[g].epoch == e
            && n in s'.nodes && s'.nodes[n].fencer.seen == e
            && s'.nodes[n].accepted == s.nodes[n].accepted + [e]
            && Current(LoadedStore(s'.store.file).epochs, "_default") == e
  {
    var s1 := Next(s, BumpFor(g, true));
    BumpAnswers(s, g, e);
    ReplyIsStored(s1, g, e);
    var s2 := Next(s1, CompareReply(g, e));
    WriteGoesThrough(Next(s2, Store(g, e)), g, n, persisted);
    var tail := [Send(g, n)] + ([CheckWrite(g, n, e, persisted)] + []);
    OneStep(s2, Store(g, e), tail);
    OneStep(s1, CompareReply(g, e), [Store(g, e)] + tail);
    OneStep(s, BumpFor(g, true), [CompareReply(g, e)] + ([Store(g, e)] + tail));
  }

  /** ... and from then on every write with an older epoch is refused there and told the newer one. */
  lemma OlderIsRefused(s: System, h: nat, n: nat, e: uint64, persisted: bool)
    requires n in s.nodes && Write(h, n, e) in s.messages && e < s.nodes[n].fencer.seen
    ensures Enabled(s, CheckWrite(h, n, e, persisted))
    ensures var s' := Next(s, CheckWrite(h, n, e, persisted));
            && s'.nodes == s.nodes && s'.gateways == s.gateways
            && Conflict(h, s.nodes[n].fencer.seen) in s'.messages
  {
    assert NodeChecked(s.nodes[n], e, persisted) == s.nodes[n];
  }

  /** A replicated write carries the epoch of the write it replicates. */
  lemma {:induction false} ReplicaHearsEpoch(s: System, from: nat, n: nat, e: uint64, persisted: bool)
    requires from in s.nodes && n in s.nodes && e in s.nodes[from].accepted && s.nodes[n].fencer.seen <= e
    ensures var run := [Forward(from, n, e)] + ([CheckReplicate(n, e, persisted)] + []);
            && Runs(s, run)
            && n in Outcome(s, run).nodes
            && Outcome(s, run).nodes[n].accepted == s.nodes[n].accepted + [e]
            && Outcome(s, run).nodes[n].fencer.seen == e
  {
    var s1 := Next(s, Forward(from, n, e));
    OneStep(s1, CheckReplicate(n, e, persisted), []);
    OneStep(s, Forward(from, n, e), [CheckReplicate(n, e, persisted)] + []);
  }

  /** A reshard raises the epoch of its partition and brings it to the node that loads it. */
  lemma {:induction false} ReshardReachesNode(s: System, p: string, n: nat, e: uint64, persisted: bool)
    requires n in s.nodes && e == Current(s.store.epochs, p) + 1 && s.nodes[n].fencer.seen <= e
    ensures var run := [Reshard(p, n, true)] + ([CheckLoad(n, e, persisted)] + []);
            && Runs(s, run)
            && var s' := Outcome(s, run);
               && Current(s'.store.epochs, p) == e
               && n in s'.nodes && s'.nodes[n].accepted == s.nodes[n].accepted + [e]
               && s'.nodes[n].fencer.seen == e
  {
    var s1 := Next(s, Reshard(p, n, true));
    OneStep(s1, CheckLoad(n, e, persisted), []);
    OneStep(s, Reshard(p, n, true), [CheckLoad(n, e, persisted)] + []);
  }

  /** A load with epoch zero is not checked at all. */
  lemma LoadWithoutEpoch(s: System, n: nat, persisted: bool)
    requires Enabled(s, CheckLoad(n, 0, persisted))
    ensures Next(s, CheckLoad(n, 0, persisted)) == s
  {
  }

  /** A bump outlives a crash of the control plane exactly when the table was written out. */
  lemma {:induction false} BumpSurvivesExact(s: System, p: string, persisted: bool)
    requires LoadedStore(s.store.file) == s.store && Current(s.store.epochs, p) < TWO_TO_THE_64 - 1
    ensures var run := [Bump(p, persisted)] + ([ControlPlaneCrash] + []);
            && Runs(s, run)
            && Current(Outcome(s, run).store.epochs, p) == Current(s.store.epochs, p) + (if persisted then 1 else 0)
  {
    var s1 := Next(s, Bump(p, persisted));
    OneStep(s1, ControlPlaneCrash, []);
    OneStep(s, Bump(p, persisted), [ControlPlaneCrash] + []);
  }
}
