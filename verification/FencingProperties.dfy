/** What epoch fencing guarantees over every run, and what it does not. */
module FencingProperties {
  import opened Wrappers
  import opened Epoch
  import opened Fencing

  // ----- runs -----

  /** Every step of the run that is enabled where it comes satisfies `ok` there. */
  ghost predicate Throughout(s: System, steps: seq<Step>, ok: (System, Step) -> bool) {
    steps == [] ||
    var before, last := After(s, steps[..|steps| - 1]), steps[|steps| - 1];
    Throughout(s, steps[..|steps| - 1], ok) && (Enabled(before, last) ==> ok(before, last))
  }

  /** `ok` holds at the start and after every step. */
  ghost predicate Always(s: System, steps: seq<Step>, ok: System -> bool) {
    ok(After(s, steps)) && (steps == [] || Always(s, steps[..|steps| - 1], ok))
  }

  lemma {:induction false} AfterPrefix(s: System, steps: seq<Step>, k: nat)
    requires k < |steps|
    ensures var before := After(s, steps[..k]);
            After(s, steps[..k + 1]) == if Enabled(before, steps[k]) then Next(before, steps[k]) else before
  {
    assert steps[..k + 1][..k] == steps[..k];
  }

  lemma {:induction false} AfterOneMore(s: System, steps: seq<Step>, step: Step)
    ensures var before, after := After(s, steps), After(s, steps + [step]);
            after == if Enabled(before, step) then Next(before, step) else before
  {
    assert (steps + [step])[..|steps|] == steps;
  }

  lemma {:induction false} ForeignChecked(s: System, steps: seq<Step>, n: nat, e: uint64, persisted: bool)
    requires n in After(s, steps).nodes
    ensures n in After(s, steps + [CheckForeign(n, e, persisted)]).nodes
    ensures After(s, steps + [CheckForeign(n, e, persisted)]).nodes[n] ==
            NodeChecked(After(s, steps).nodes[n], e, persisted)
  {
    AfterOneMore(s, steps, CheckForeign(n, e, persisted));
  }

  lemma {:induction false} NodeRestarted(s: System, steps: seq<Step>, n: nat)
    requires n in After(s, steps).nodes
    ensures n in After(s, steps + [NodeCrash(n)]).nodes
    ensures var before := After(s, steps).nodes[n];
            After(s, steps + [NodeCrash(n)]).nodes[n] == Node(Loaded(before.fencer.file), before.accepted)
  {
    AfterOneMore(s, steps, NodeCrash(n));
  }

  // ----- a node never accepts an older epoch -----

  /** The epoch accepted last; zero before the first. */
  function LastAccepted(n: Node): uint64 {
    if n.accepted == [] then 0 else n.accepted[|n.accepted| - 1]
  }

  /** The fencer knows the last epoch it let through, which is the newest of them. */
  ghost predicate NodeFenced(n: Node) {
    && n.fencer.seen == LastAccepted(n)
    && FileEpoch(n.fencer.file) <= n.fencer.seen
    && (forall i, j :: 0 <= i < j < |n.accepted| ==> n.accepted[i] <= n.accepted[j])
  }

  ghost predicate NodesFenced(s: System) {
    forall n :: n in s.nodes ==> NodeFenced(s.nodes[n])
  }

  /** A node crashes only while its file holds the epoch it knows. */
  predicate CrashSafe(s: System, step: Step) {
    step.NodeCrash? && step.node in s.nodes ==>
      FileEpoch(s.nodes[step.node].fencer.file) == s.nodes[step.node].fencer.seen
  }

  lemma CheckFenced(n: Node, e: uint64, persisted: bool)
    requires NodeFenced(n)
    ensures NodeFenced(NodeChecked(n, e, persisted))
    ensures n.accepted <= NodeChecked(n, e, persisted).accepted
  {
    PersistThenLoad(e);
  }

  lemma CheckKeepsFenced(s: System, n: nat, e: uint64, persisted: bool)
    requires NodesFenced(s) && n in s.nodes
    ensures NodesFenced(WithNode(s, n, NodeChecked(s.nodes[n], e, persisted)))
  {
    CheckFenced(s.nodes[n], e, persisted);
  }

  lemma NextFenced(s: System, step: Step)
    requires NodesFenced(s) && Enabled(s, step) && CrashSafe(s, step)
    ensures NodesFenced(Next(s, step))
  {
    if step.CheckWrite? || step.CheckReplicate? || step.CheckLoad? || step.CheckForeign? {
      CheckKeepsFenced(s, step.node, step.epoch, step.persisted);
    } else if step.NodeCrash? {
      assert NodeFenced(Node(Loaded(s.nodes[step.node].fencer.file), s.nodes[step.node].accepted));
    }
  }

  lemma {:induction false} RunFenced(s: System, steps: seq<Step>)
    requires NodesFenced(s) && Throughout(s, steps, CrashSafe)
    ensures NodesFenced(After(s, steps))
  {
    if steps != [] {
      var n := |steps| - 1;
      RunFenced(s, steps[..n]);
      var before := After(s, steps[..n]);
      if Enabled(before, steps[n]) {
        NextFenced(before, steps[n]);
      }
    }
  }

  lemma StepGrows(s: System, step: Step, n: nat)
    requires n in s.nodes && Enabled(s, step)
    ensures n in Next(s, step).nodes
    ensures s.nodes[n].accepted <= Next(s, step).nodes[n].accepted
  {
  }

  lemma {:induction false} NodesStay(s: System, steps: seq<Step>, n: nat)
    requires n in s.nodes
    ensures n in After(s, steps).nodes
  {
    if steps != [] {
      NodesStay(s, steps[..|steps| - 1], n);
    }
  }

  /** What a node has accepted stays on its record: later steps only add to it. */
  lemma {:induction false} HistoryGrows(s: System, steps: seq<Step>, k: nat, n: nat)
    requires k <= |steps| && n in s.nodes
    ensures n in After(s, steps).nodes && n in After(s, steps[..k]).nodes
    ensures After(s, steps[..k]).nodes[n].accepted <= After(s, steps).nodes[n].accepted
    decreases |steps|
  {
    NodesStay(s, steps, n);
    if k == |steps| {
      assert steps[..k] == steps;
    } else {
      var last := |steps| - 1;
      HistoryGrows(s, steps[..last], k, n);
      assert steps[..last][..k] == steps[..k];
      var before := After(s, steps[..last]);
      if Enabled(before, steps[last]) {
        StepGrows(before, steps[last], n);
      }
    }
  }

  /**
  Node safety over all runs: whatever gateways, clients and the control plane do, and
  however often processes crash, an epoch that a node accepts after step k is never
  older than one it accepted before. Writes of the epoch file may fail, unless a node
  crashes before a later one succeeds.
  */
  lemma {:induction false} AcceptedNeverDecrease(s: System, steps: seq<Step>, k: nat, n: nat)
    requires Initial(s) && k <= |steps| && n in s.nodes
    requires Throughout(s, steps, CrashSafe)
    ensures n in After(s, steps).nodes && n in After(s, steps[..k]).nodes
    ensures var sooner, all := After(s, steps[..k]).nodes[n].accepted, After(s, steps).nodes[n].accepted;
            && sooner <= all
            && forall i, j :: 0 <= i < |sooner| <= j < |all| ==> sooner[i] <= all[j]
  {
    RunFenced(s, steps);
    HistoryGrows(s, steps, k, n);
    assert NodeFenced(After(s, steps).nodes[n]);
  }

  /**
  The condition is exact: after such a run, a crash of node n makes it let an epoch
  through that is older than the last one it accepted, if and only if its file is behind.
  */
  lemma {:induction false} CrashForgets(s: System, steps: seq<Step>, n: nat)
    requires Initial(s) && n in s.nodes && Throughout(s, steps, CrashSafe)
    ensures n in After(s, steps).nodes && n in After(s, steps + [NodeCrash(n)]).nodes
    ensures var before, after := After(s, steps).nodes[n], After(s, steps + [NodeCrash(n)]).nodes[n];
            && after.accepted == before.accepted
            && ((exists e: uint64 :: e < LastAccepted(after) && Passes(after.fencer, e)) <==>
                  !CrashSafe(After(s, steps), NodeCrash(n)))
  {
    var before := After(s, steps);
    assert n in before.nodes && NodeFenced(before.nodes[n]) by {
      RunFenced(s, steps);
      NodesStay(s, steps, n);
    }
    NodeRestarted(s, steps, n);
    RestartForgets(before.nodes[n]);
  }

  lemma RestartForgets(n: Node)
    requires NodeFenced(n)
    ensures (exists e: uint64 :: e < LastAccepted(n) && Passes(Loaded(n.fencer.file), e)) <==>
              FileEpoch(n.fencer.file) < n.fencer.seen
  {
    if FileEpoch(n.fencer.file) < n.fencer.seen {
      assert Passes(Loaded(n.fencer.file), FileEpoch(n.fencer.file));
    }
  }

  /** The epoch file of a node is written whenever the fencer wants to. */
  predicate NodePersists(step: Step) {
    (step.CheckWrite? || step.CheckReplicate? || step.CheckLoad? || step.CheckForeign?) ==> step.persisted
  }

  ghost predicate NodesWritten(s: System) {
    forall n :: n in s.nodes ==> FileEpoch(s.nodes[n].fencer.file) == s.nodes[n].fencer.seen
  }

  lemma NextWritten(s: System, step: Step)
    requires NodesWritten(s) && Enabled(s, step) && NodePersists(step)
    ensures NodesWritten(Next(s, step))
  {
    if step.CheckWrite? || step.CheckReplicate? || step.CheckLoad? || step.CheckForeign? {
      PersistThenLoad(step.epoch);
    }
  }

  /** If every write of an epoch file succeeds, no crash can do harm. */
  lemma {:induction false} WritesMakeCrashesSafe(s: System, steps: seq<Step>)
    requires NodesWritten(s) && forall i :: 0 <= i < |steps| ==> NodePersists(steps[i])
    ensures NodesWritten(After(s, steps)) && Throughout(s, steps, CrashSafe)
  {
    if steps != [] {
      var n := |steps| - 1;
      WritesMakeCrashesSafe(s, steps[..n]);
      var before := After(s, steps[..n]);
      if Enabled(before, steps[n]) {
        NextWritten(before, steps[n]);
      }
    }
  }

  // ----- no epoch is ahead of the control plane -----

  /** Some partition of the table has reached the epoch. */
  ghost predicate Covered(epochs: Epochs, e: uint64) {
    e == 0 || exists p :: p in epochs && e <= epochs[p]
  }

  function EpochIn(m: Message): uint64 {
    match m
    case EpochReply(_, e) => e
    case Write(_, _, e) => e
    case Replicate(_, e) => e
    case Conflict(_, seen) => seen
    case Load(_, e) => e
  }

  ghost predicate GatewayCovered(epochs: Epochs, g: Gateway) {
    Covered(epochs, g.epoch) && forall e :: e in g.storing ==> Covered(epochs, e)
  }

  ghost predicate NodeCovered(epochs: Epochs, n: Node) {
    && Covered(epochs, FileEpoch(n.fencer.file))
    && Covered(epochs, n.fencer.seen)
    && forall e :: e in n.accepted ==> Covered(epochs, e)
  }

  /** The table is on disk, and every epoch anywhere is covered by it. */
  ghost predicate AllCovered(s: System) {
    && LoadedStore(s.store.file) == s.store
    && (forall g :: g in s.gateways ==> GatewayCovered(s.store.epochs, s.gateways[g]))
    && (forall n :: n in s.nodes ==> NodeCovered(s.store.epochs, s.nodes[n]))
    && (forall m :: m in s.messages ==> Covered(s.store.epochs, EpochIn(m)))
  }

  /** The control plane writes its table out, and the counter does not wrap. */
  predicate Orderly(s: System, step: Step) {
    match step
    case BumpFor(_, persisted) => persisted && Current(s.store.epochs, DEFAULT_PARTITION) < TWO_TO_THE_64 - 1
    case Bump(p, persisted) => persisted && Current(s.store.epochs, p) < TWO_TO_THE_64 - 1
    case Reshard(p, _, persisted) => persisted && Current(s.store.epochs, p) < TWO_TO_THE_64 - 1
    case _ => true
  }

  /** A write that does not come through a gateway names an epoch the control plane has issued. */
  ghost predicate Issued(s: System, step: Step) {
    step.CheckForeign? ==> Covered(s.store.epochs, step.epoch)
  }

  lemma CurrentCovered(epochs: Epochs, p: string)
    ensures Covered(epochs, Current(epochs, p))
  {
  }

  /** Bumping one partition keeps everything covered. */
  lemma BumpCovers(s: System, p: string)
    requires AllCovered(s) && Current(s.store.epochs, p) < TWO_TO_THE_64 - 1
    ensures AllCovered(s.(store := Bumped(s.store, p, true)))
  {
    var before, after := s.store.epochs, Bumped(s.store, p, true).epochs;
    forall e: uint64 | Covered(before, e) ensures Covered(after, e) {
      if e != 0 {
        var q :| q in before && e <= before[q];
        assert q in after && before[q] <= after[q];
      }
    }
  }

  lemma SendCovers(s: System, m: Message)
    requires AllCovered(s) && Covered(s.store.epochs, EpochIn(m))
    ensures AllCovered(Sent(s, m))
  {
  }

  lemma GatewayCovers(s: System, g: nat, gateway: Gateway)
    requires AllCovered(s) && GatewayCovered(s.store.epochs, gateway)
    ensures AllCovered(WithGateway(s, g, gateway))
  {
  }

  lemma {:induction false} NodeCovers(s: System, n: nat, e: uint64, persisted: bool)
    requires AllCovered(s) && n in s.nodes && Covered(s.store.epochs, e)
    ensures AllCovered(WithNode(s, n, NodeChecked(s.nodes[n], e, persisted)))
  {
    PersistThenLoad(e);
    assert NodeCovered(s.store.epochs, s.nodes[n]);
  }

  lemma ControlPlaneCovers(s: System, step: Step)
    requires AllCovered(s) && Enabled(s, step) && Orderly(s, step)
    requires step.Poll? || step.BumpFor? || step.Bump? || step.Reshard? || step.ControlPlaneCrash?
    ensures AllCovered(Next(s, step))
  {
    match step {
      case Poll(g) =>
        CurrentCovered(s.store.epochs, DEFAULT_PARTITION);
        SendCovers(s, EpochReply(g, Current(s.store.epochs, DEFAULT_PARTITION)));
      case BumpFor(g, _) =>
        BumpCovers(s, DEFAULT_PARTITION);
        var bumped := s.(store := Bumped(s.store, DEFAULT_PARTITION, true));
        CurrentCovered(bumped.store.epochs, DEFAULT_PARTITION);
        SendCovers(bumped, EpochReply(g, Current(bumped.store.epochs, DEFAULT_PARTITION)));
      case Bump(p, _) =>
        BumpCovers(s, p);
      case Reshard(p, n, _) =>
        BumpCovers(s, p);
        var bumped := s.(store := Bumped(s.store, p, true));
        CurrentCovered(bumped.store.epochs, p);
        SendCovers(bumped, Load(n, Current(bumped.store.epochs, p)));
      case ControlPlaneCrash =>
    }
  }

  lemma GatewayReceiveCovers(s: System, step: Step)
    requires AllCovered(s) && Enabled(s, step) && Orderly(s, step)
    requires step.StartWith? || step.CompareReply? || step.CompareConflict?
    ensures AllCovered(Next(s, step))
  {
    match step {
      case StartWith(g, e) =>
        assert Covered(s.store.epochs, EpochIn(EpochReply(g, e)));
        GatewayCovers(s, g, Gateway(e, multiset{}, false));
      case CompareReply(g, e) =>
        assert Covered(s.store.epochs, EpochIn(EpochReply(g, e)));
        GatewayCovers(s, g, Compared(s.gateways[g], e));
      case CompareConflict(g, seen) =>
        assert Covered(s.store.epochs, EpochIn(Conflict(g, seen)));
        GatewayCovers(s, g, Compared(s.gateways[g], seen));
    }
  }

  lemma GatewayLocalCovers(s: System, step: Step)
    requires AllCovered(s) && Enabled(s, step) && Orderly(s, step)
    requires step.StartWithout? || step.Store? || step.Send? || step.GatewayCrash?
    ensures AllCovered(Next(s, step))
  {
    match step {
      case StartWithout(g) =>
        GatewayCovers(s, g, Gateway(0, multiset{}, false));
      case Store(g, e) =>
        assert GatewayCovered(s.store.epochs, s.gateways[g]);
        GatewayCovers(s, g, s.gateways[g].(epoch := e, storing := s.gateways[g].storing - multiset{e}));
      case Send(g, n) =>
        assert GatewayCovered(s.store.epochs, s.gateways[g]);
        SendCovers(s, Write(g, n, s.gateways[g].epoch));
      case GatewayCrash(g) =>
        GatewayCovers(s, g, NEW_GATEWAY);
    }
  }

  lemma NodeStepCovers(s: System, step: Step)
    requires AllCovered(s) && Enabled(s, step) && Issued(s, step)
    requires step.CheckReplicate? || step.CheckLoad? || step.CheckForeign? || step.NodeCrash?
    ensures AllCovered(Next(s, step))
  {
    match step {
      case CheckReplicate(n, e, persisted) =>
        assert Covered(s.store.epochs, EpochIn(Replicate(n, e)));
        NodeCovers(s, n, e, persisted);
      case CheckLoad(n, e, persisted) =>
        assert Covered(s.store.epochs, EpochIn(Load(n, e)));
        NodeCovers(s, n, e, persisted);
      case CheckForeign(n, e, persisted) =>
        NodeCovers(s, n, e, persisted);
      case NodeCrash(n) =>
        assert NodeCovered(s.store.epochs, s.nodes[n]);
    }
  }

  lemma NodeSendCovers(s: System, step: Step)
    requires AllCovered(s) && Enabled(s, step) && (step.CheckWrite? || step.Forward?)
    ensures AllCovered(Next(s, step))
  {
    match step {
      case CheckWrite(g, n, e, persisted) =>
        assert Covered(s.store.epochs, EpochIn(Write(g, n, e)));
        NodeCovers(s, n, e, persisted);
        assert NodeCovered(s.store.epochs, s.nodes[n]);
        SendCovers(WithNode(s, n, NodeChecked(s.nodes[n], e, persisted)), Conflict(g, s.nodes[n].fencer.seen));
      case Forward(from, n, e) =>
        assert NodeCovered(s.store.epochs, s.nodes[from]);
        SendCovers(s, Replicate(n, e));
    }
  }

  /** Only an epoch that was never issued can get past the table, and it does. */
  lemma NextCovered(s: System, step: Step)
    requires AllCovered(s) && Enabled(s, step) && Orderly(s, step)
    ensures AllCovered(Next(s, step)) <==> Issued(s, step)
  {
    if !Issued(s, step) {
      ForeignUncovers(s, step.node, step.epoch, step.persisted);
    } else if step.Poll? || step.BumpFor? || step.Bump? || step.Reshard? || step.ControlPlaneCrash? {
      ControlPlaneCovers(s, step);
    } else if step.CheckReplicate? || step.CheckLoad? || step.CheckForeign? || step.NodeCrash? {
      NodeStepCovers(s, step);
    } else if step.CheckWrite? || step.Forward? {
      NodeSendCovers(s, step);
    } else if step.StartWith? || step.CompareReply? || step.CompareConflict? {
      GatewayReceiveCovers(s, step);
    } else {
      GatewayLocalCovers(s, step);
    }
  }

  lemma ForeignUncovers(s: System, n: nat, e: uint64, persisted: bool)
    requires AllCovered(s) && n in s.nodes && !Covered(s.store.epochs, e)
    ensures !AllCovered(WithNode(s, n, NodeChecked(s.nodes[n], e, persisted)))
  {
    var seen := s.nodes[n].fencer.seen;
    assert NodeCovered(s.store.epochs, s.nodes[n]);
    assert seen < e;
    var after := NodeChecked(s.nodes[n], e, persisted);
    assert e in after.accepted;
    assert !NodeCovered(s.store.epochs, after);
    assert WithNode(s, n, after).nodes[n] == after;
  }

  /**
  Over all orderly runs, every epoch held by a gateway, a message or a node stays covered
  by the control plane's table, which is on disk, if and only if clients that bypass the
  gateways name only epochs that were issued.
  */
  lemma {:induction false} RunCovered(s: System, steps: seq<Step>)
    requires Initial(s) && Throughout(s, steps, Orderly)
    ensures Always(s, steps, AllCovered) <==> Throughout(s, steps, Issued)
  {
    if steps != [] {
      var n := |steps| - 1;
      RunCovered(s, steps[..n]);
      var before := After(s, steps[..n]);
      if AllCovered(before) && Enabled(before, steps[n]) {
        NextCovered(before, steps[n]);
      }
    }
  }

  // ----- the default epoch as a bound -----

  function DefaultEpoch(s: System): uint64 {
    Current(s.store.epochs, DEFAULT_PARTITION)
  }

  ghost predicate GatewayWithin(g: Gateway, bound: uint64) {
    g.epoch <= bound && forall e :: e in g.storing ==> e <= bound
  }

  ghost predicate NodeWithin(n: Node, bound: uint64) {
    && n.fencer.seen <= bound
    && FileEpoch(n.fencer.file) <= bound
    && forall e :: e in n.accepted ==> e <= bound
  }

  /** The default epoch is on disk, and no epoch anywhere is past it. */
  ghost predicate WithinDefault(s: System) {
    && LoadedStore(s.store.file) == s.store
    && (forall g :: g in s.gateways ==> GatewayWithin(s.gateways[g], DefaultEpoch(s)))
    && (forall n :: n in s.nodes ==> NodeWithin(s.nodes[n], DefaultEpoch(s)))
    && (forall m :: m in s.messages ==> EpochIn(m) <= DefaultEpoch(s))
  }

  /**
  The step hands a node an epoch past the default one: a reshard of another partition
  whose own epoch gets there, or a client that bypasses the gateways.
  */
  predicate OutrunsDefault(s: System, step: Step) {
    match step
    case Reshard(p, _, _) => p != DEFAULT_PARTITION && Current(s.store.epochs, p) + 1 > DefaultEpoch(s)
    case CheckForeign(_, e, _) => e > DefaultEpoch(s)
    case _ => false
  }

  predicate KeepsDefaultAhead(s: System, step: Step) {
    !OutrunsDefault(s, step)
  }

  lemma BumpedWithin(s: System, p: string)
    requires WithinDefault(s) && Current(s.store.epochs, p) < TWO_TO_THE_64 - 1
    ensures WithinDefault(s.(store := Bumped(s.store, p, true)))
    ensures DefaultEpoch(s) <= DefaultEpoch(s.(store := Bumped(s.store, p, true)))
    ensures Current(Bumped(s.store, p, true).epochs, p) == Current(s.store.epochs, p) + 1
  {
  }

  lemma SentWithin(s: System, m: Message)
    requires WithinDefault(s)
    ensures WithinDefault(Sent(s, m)) <==> EpochIn(m) <= DefaultEpoch(s)
  {
    assert m in Sent(s, m).messages;
  }

  lemma {:induction false} ControlPlaneWithin(s: System, step: Step)
    requires WithinDefault(s) && Enabled(s, step) && Orderly(s, step)
    requires step.Poll? || step.BumpFor? || step.Bump? || step.Reshard? || step.ControlPlaneCrash?
    ensures WithinDefault(Next(s, step)) <==> !OutrunsDefault(s, step)
  {
    match step {
      case Poll(g) =>
        SentWithin(s, EpochReply(g, DefaultEpoch(s)));
      case BumpFor(g, _) =>
        BumpedWithin(s, DEFAULT_PARTITION);
        var bumped := s.(store := Bumped(s.store, DEFAULT_PARTITION, true));
        SentWithin(bumped, EpochReply(g, DefaultEpoch(bumped)));
      case Bump(p, _) =>
        BumpedWithin(s, p);
      case Reshard(p, n, _) =>
        BumpedWithin(s, p);
        var bumped := s.(store := Bumped(s.store, p, true));
        SentWithin(bumped, Load(n, Current(bumped.store.epochs, p)));
      case ControlPlaneCrash =>
    }
  }

  lemma WithGatewayWithin(s: System, g: nat, gateway: Gateway)
    requires WithinDefault(s) && GatewayWithin(gateway, DefaultEpoch(s))
    ensures WithinDefault(WithGateway(s, g, gateway))
  {
  }

  lemma ComparedWithin(s: System, g: nat, e: uint64)
    requires WithinDefault(s) && g in s.gateways && e <= DefaultEpoch(s)
    ensures WithinDefault(WithGateway(s, g, Compared(s.gateways[g], e)))
  {
    assert GatewayWithin(s.gateways[g], DefaultEpoch(s));
    WithGatewayWithin(s, g, Compared(s.gateways[g], e));
  }

  lemma GatewayReceiveWithin(s: System, step: Step)
    requires WithinDefault(s) && Enabled(s, step)
    requires step.StartWith? || step.CompareReply? || step.CompareConflict?
    ensures WithinDefault(Next(s, step))
  {
    match step {
      case StartWith(g, e) =>
        assert EpochIn(EpochReply(g, e)) <= DefaultEpoch(s);
        WithGatewayWithin(s, g, Gateway(e, multiset{}, false));
      case CompareReply(g, e) =>
        assert EpochIn(EpochReply(g, e)) <= DefaultEpoch(s);
        ComparedWithin(s, g, e);
      case CompareConflict(g, seen) =>
        assert EpochIn(Conflict(g, seen)) <= DefaultEpoch(s);
        ComparedWithin(s, g, seen);
    }
  }

  lemma GatewayLocalWithin(s: System, step: Step)
    requires WithinDefault(s) && Enabled(s, step)
    requires step.StartWithout? || step.Store? || step.Send? || step.GatewayCrash?
    ensures WithinDefault(Next(s, step))
  {
    match step {
      case StartWithout(g) =>
        WithGatewayWithin(s, g, Gateway(0, multiset{}, false));
      case Store(g, e) =>
        assert GatewayWithin(s.gateways[g], DefaultEpoch(s));
        WithGatewayWithin(s, g, s.gateways[g].(epoch := e, storing := s.gateways[g].storing - multiset{e}));
      case Send(g, n) =>
        assert GatewayWithin(s.gateways[g], DefaultEpoch(s));
      case GatewayCrash(g) =>
        WithGatewayWithin(s, g, NEW_GATEWAY);
    }
  }

  lemma CheckWithin(n: Node, e: uint64, persisted: bool, bound: uint64)
    requires NodeWithin(n, bound)
    ensures NodeWithin(NodeChecked(n, e, persisted), bound) <==> e <= bound
  {
    PersistThenLoad(e);
    if e > bound {
      assert e in NodeChecked(n, e, persisted).accepted;
    }
  }

  lemma WithNodeWithin(s: System, n: nat, e: uint64, persisted: bool)
    requires WithinDefault(s) && n in s.nodes
    ensures WithinDefault(WithNode(s, n, NodeChecked(s.nodes[n], e, persisted))) <==> e <= DefaultEpoch(s)
  {
    var s' := WithNode(s, n, NodeChecked(s.nodes[n], e, persisted));
    CheckWithin(s.nodes[n], e, persisted, DefaultEpoch(s));
    assert s'.nodes[n] == NodeChecked(s.nodes[n], e, persisted);
  }

  lemma NodeStepWithin(s: System, step: Step)
    requires WithinDefault(s) && Enabled(s, step)
    requires step.CheckReplicate? || step.CheckLoad? || step.CheckForeign? || step.NodeCrash?
    ensures WithinDefault(Next(s, step)) <==> !OutrunsDefault(s, step)
  {
    match step {
      case CheckReplicate(n, e, persisted) =>
        assert EpochIn(Replicate(n, e)) <= DefaultEpoch(s);
        WithNodeWithin(s, n, e, persisted);
      case CheckLoad(n, e, persisted) =>
        assert EpochIn(Load(n, e)) <= DefaultEpoch(s);
        WithNodeWithin(s, n, e, persisted);
      case CheckForeign(n, e, persisted) =>
        WithNodeWithin(s, n, e, persisted);
      case NodeCrash(n) =>
        assert NodeWithin(s.nodes[n], DefaultEpoch(s));
    }
  }

  lemma NodeSendWithin(s: System, step: Step)
    requires WithinDefault(s) && Enabled(s, step) && (step.CheckWrite? || step.Forward?)
    ensures WithinDefault(Next(s, step))
  {
    match step {
      case CheckWrite(g, n, e, persisted) =>
        assert EpochIn(Write(g, n, e)) <= DefaultEpoch(s);
        assert NodeWithin(s.nodes[n], DefaultEpoch(s));
        WithNodeWithin(s, n, e, persisted);
      case Forward(from, n, e) =>
        assert NodeWithin(s.nodes[from], DefaultEpoch(s));
    }
  }

  /** One step loses the bound if and only if it outruns the default epoch. */
  lemma NextWithinDefault(s: System, step: Step)
    requires WithinDefault(s) && Enabled(s, step) && Orderly(s, step)
    ensures WithinDefault(Next(s, step)) <==> !OutrunsDefault(s, step)
  {
    if step.Poll? || step.BumpFor? || step.Bump? || step.Reshard? || step.ControlPlaneCrash? {
      ControlPlaneWithin(s, step);
    } else if step.CheckReplicate? || step.CheckLoad? || step.CheckForeign? || step.NodeCrash? {
      NodeStepWithin(s, step);
    } else if step.CheckWrite? || step.Forward? {
      NodeSendWithin(s, step);
    } else if step.StartWith? || step.CompareReply? || step.CompareConflict? {
      GatewayReceiveWithin(s, step);
    } else {
      GatewayLocalWithin(s, step);
    }
  }

  /**
  Over all orderly runs, the control plane's durable default epoch bounds the epoch of
  every gateway, message and node all the way if and only if no step outruns it. Other
  partitions are harmless up to that point.
  */
  lemma {:induction false} DurableEpochBounds(s: System, steps: seq<Step>)
    requires Initial(s) && Throughout(s, steps, Orderly)
    ensures Always(s, steps, WithinDefault) <==> Throughout(s, steps, KeepsDefaultAhead)
  {
    if steps != [] {
      var n := |steps| - 1;
      DurableEpochBounds(s, steps[..n]);
      var before := After(s, steps[..n]);
      if WithinDefault(before) && Enabled(before, steps[n]) {
        NextWithinDefault(before, steps[n]);
      }
    }
  }

  // ----- when the epoch of a gateway goes back -----

  /** A gateway that is starting has no epoch yet. */
  ghost predicate StartsAtZero(s: System) {
    forall g :: g in s.gateways && s.gateways[g].starting ==> s.gateways[g].epoch == 0
  }

  /** An older epoch is stored last, or the gateway forgets its epoch in a crash. */
  predicate LowersGateway(s: System, step: Step, g: nat)
    requires g in s.gateways
  {
    match step
    case Store(g', e) => g' == g && e < s.gateways[g].epoch
    case GatewayCrash(g') => g' == g && s.gateways[g].epoch > 0
    case _ => false
  }

  /** The epoch of a gateway drops if and only if the step is one of these two. */
  lemma {:induction false} GatewayDrops(s: System, step: Step, g: nat)
    requires StartsAtZero(s) && Enabled(s, step) && g in s.gateways
    ensures StartsAtZero(Next(s, step)) && g in Next(s, step).gateways
    ensures Next(s, step).gateways[g].epoch < s.gateways[g].epoch <==> LowersGateway(s, step, g)
  {
  }

  lemma {:induction false} GatewaysStay(s: System, steps: seq<Step>, g: nat)
    requires g in s.gateways
    ensures g in After(s, steps).gateways
  {
    if steps != [] {
      GatewaysStay(s, steps[..|steps| - 1], g);
    }
  }

  lemma {:induction false} RunStartsAtZero(s: System, steps: seq<Step>)
    requires Initial(s)
    ensures StartsAtZero(After(s, steps))
  {
    if steps != [] {
      RunStartsAtZero(s, steps[..|steps| - 1]);
    }
  }

  /** The epoch of gateway g after k steps. */
  function GatewayEpoch(s: System, steps: seq<Step>, k: nat, g: nat): uint64
    requires g in s.gateways && k <= |steps|
  {
    GatewaysStay(s, steps[..k], g);
    After(s, steps[..k]).gateways[g].epoch
  }

  /** Step k of the run is enabled and lowers gateway g. */
  predicate LowersAt(s: System, steps: seq<Step>, k: nat, g: nat)
    requires g in s.gateways && k < |steps|
  {
    GatewaysStay(s, steps[..k], g);
    var before := After(s, steps[..k]);
    Enabled(before, steps[k]) && LowersGateway(before, steps[k], g)
  }

  lemma EpochDropsAt(s: System, steps: seq<Step>, k: nat, g: nat)
    requires Initial(s) && g in s.gateways && k < |steps|
    ensures GatewayEpoch(s, steps, k + 1, g) < GatewayEpoch(s, steps, k, g) <==> LowersAt(s, steps, k, g)
  {
    var before := After(s, steps[..k]);
    GatewaysStay(s, steps[..k], g);
    RunStartsAtZero(s, steps[..k]);
    AfterPrefix(s, steps, k);
    if Enabled(before, steps[k]) {
      GatewayDrops(before, steps[k], g);
    }
  }

  lemma {:induction false} EpochsKeepUp(s: System, steps: seq<Step>, i: nat, j: nat, g: nat)
    requires Initial(s) && g in s.gateways && i <= j <= |steps|
    requires forall k :: 0 <= k < |steps| ==> !LowersAt(s, steps, k, g)
    ensures GatewayEpoch(s, steps, i, g) <= GatewayEpoch(s, steps, j, g)
    decreases j
  {
    if i < j {
      EpochsKeepUp(s, steps, i, j - 1, g);
      EpochDropsAt(s, steps, j - 1, g);
    }
  }

  /**
  Over all runs the epoch of a gateway never goes back if and only if no step of the
  run stores an older epoch than it has, or is a crash of a gateway that has one.
  */
  lemma {:induction false} GatewayNeverBackExact(s: System, steps: seq<Step>, g: nat)
    requires Initial(s) && g in s.gateways
    ensures (forall i, j :: 0 <= i <= j <= |steps| ==>
               GatewayEpoch(s, steps, i, g) <= GatewayEpoch(s, steps, j, g))
            <==> (forall k :: 0 <= k < |steps| ==> !LowersAt(s, steps, k, g))
  {
    if k :| 0 <= k < |steps| && LowersAt(s, steps, k, g) {
      EpochDropsAt(s, steps, k, g);
      assert 0 <= k <= k + 1 <= |steps|;
    } else {
      forall i, j | 0 <= i <= j <= |steps|
        ensures GatewayEpoch(s, steps, i, g) <= GatewayEpoch(s, steps, j, g)
      {
        EpochsKeepUp(s, steps, i, j, g);
      }
    }
  }

  // ----- a refusal teaches the gateway -----

  /** The steps from a refused write of gateway g to its next write at the same node. */
  function RetryAfterConflict(g: nat, n: nat, stale: uint64, seen: uint64): seq<Step> {
    [CheckWrite(g, n, stale, true), CompareConflict(g, seen), Store(g, seen), Send(g, n),
     CheckWrite(g, n, seen, true)]
  }

  /** A gateway whose stale write is refused learns the epoch of the node and gets through with it. */
  lemma {:induction false} ConflictHeals(s: System, g: nat, n: nat)
    requires Serving(s, g) && n in s.nodes
    requires Write(g, n, s.gateways[g].epoch) in s.messages
    requires s.gateways[g].epoch < s.nodes[n].fencer.seen
    ensures var seen := s.nodes[n].fencer.seen;
            var s' := After(s, RetryAfterConflict(g, n, s.gateways[g].epoch, seen));
            && g in s'.gateways && s'.gateways[g].epoch == seen
            && n in s'.nodes && s'.nodes[n].accepted == s.nodes[n].accepted + [seen]
  {
    var seen := s.nodes[n].fencer.seen;
    var steps := RetryAfterConflict(g, n, s.gateways[g].epoch, seen);
    var s2 := After(s, steps[..2]);
    assert Serving(s2, g) && seen in s2.gateways[g].storing && s2.nodes == s.nodes by {
      RefusalReachesGateway(s, g, n);
    }
    StoreAndSend(s, steps, g, n, seen);
    WritePasses(After(s, steps[..4]), g, n, seen, true);
    AfterPrefix(s, steps, 4);
    assert steps[..5] == steps;
  }

  lemma WritePasses(s: System, g: nat, n: nat, e: uint64, persisted: bool)
    requires n in s.nodes && Write(g, n, e) in s.messages && s.nodes[n].fencer.seen <= e
    ensures var s' := Next(s, CheckWrite(g, n, e, persisted));
            s'.gateways == s.gateways && n in s'.nodes && s'.nodes[n].accepted == s.nodes[n].accepted + [e]
  {
  }

  lemma {:induction false} StoreAndSend(s: System, steps: seq<Step>, g: nat, n: nat, seen: uint64)
    requires |steps| > 4 && steps[2] == Store(g, seen) && steps[3] == Send(g, n)
    requires Serving(After(s, steps[..2]), g) && seen in After(s, steps[..2]).gateways[g].storing
    requires n in After(s, steps[..2]).nodes
    ensures var s4 := After(s, steps[..4]);
            && Serving(s4, g) && s4.gateways[g].epoch == seen
            && Write(g, n, seen) in s4.messages && s4.nodes == After(s, steps[..2]).nodes
  {
    AfterPrefix(s, steps, 2);
    AfterPrefix(s, steps, 3);
  }

  lemma {:induction false} RefusalReachesGateway(s: System, g: nat, n: nat)
    requires Serving(s, g) && n in s.nodes
    requires Write(g, n, s.gateways[g].epoch) in s.messages
    requires s.gateways[g].epoch < s.nodes[n].fencer.seen
    ensures var seen := s.nodes[n].fencer.seen;
            var s2 := After(s, RetryAfterConflict(g, n, s.gateways[g].epoch, seen)[..2]);
            Serving(s2, g) && seen in s2.gateways[g].storing && s2.nodes == s.nodes
  {
    var seen := s.nodes[n].fencer.seen;
    var steps := RetryAfterConflict(g, n, s.gateways[g].epoch, seen);
    assert After(s, steps[..0]) == s;
    AfterPrefix(s, steps, 0);
    var s1 := After(s, steps[..1]);
    assert s1.gateways == s.gateways && s1.nodes == s.nodes && Conflict(g, seen) in s1.messages by {
      assert NodeChecked(s.nodes[n], s.gateways[g].epoch, true) == s.nodes[n];
    }
    AfterPrefix(s, steps, 1);
  }

  // ----- what fencing does not promise -----

  /** The control plane persists, and all writes come through gateways. */
  ghost predicate OrderlyRun(s: System, steps: seq<Step>) {
    Throughout(s, steps, Orderly) && forall i :: 0 <= i < |steps| ==> !steps[i].CheckForeign?
  }

  /** One more orderly step. */
  lemma {:induction false} OrderlyOneMore(s: System, steps: seq<Step>, step: Step)
    ensures var before, after := After(s, steps), After(s, steps + [step]);
            after == if Enabled(before, step) then Next(before, step) else before
    ensures OrderlyRun(s, steps) && Orderly(After(s, steps), step) && !step.CheckForeign? ==>
              OrderlyRun(s, steps + [step])
  {
    assert (steps + [step])[..|steps|] == steps;
  }

  /** One bump of the default partition whose new epoch reaches gateway 0 and wins the comparison there. */
  lemma {:induction false} BumpAndCompare(s: System, steps: seq<Step>, e: uint64) returns (more: seq<Step>)
    requires OrderlyRun(s, steps) && Serving(After(s, steps), 0)
    requires Current(After(s, steps).store.epochs, DEFAULT_PARTITION) + 1 == e < TWO_TO_THE_64
    requires After(s, steps).gateways[0].epoch < e
    ensures OrderlyRun(s, more)
    ensures var before, after := After(s, steps), After(s, more);
            && Current(after.store.epochs, DEFAULT_PARTITION) == e
            && after.gateways == before.gateways[0 := Compared(before.gateways[0], e)]
  {
    var a, b, c := Bump(DEFAULT_PARTITION, true), Poll(0), CompareReply(0, e);
    OrderlyOneMore(s, steps, a);
    OrderlyOneMore(s, steps + [a], b);
    OrderlyOneMore(s, steps + [a] + [b], c);
    more := steps + [a] + [b] + [c];
  }

  const ONE_GATEWAY := System(LoadedStore(None), map[0 := NEW_GATEWAY], map[], {})

  const ONE_NODE := System(LoadedStore(None), map[], map[0 := Node(Loaded(None), [])], {})

  /** Two comparisons of one gateway have succeeded, and neither is stored yet. */
  lemma {:induction false} TwoStoresPending() returns (steps: seq<Step>)
    ensures OrderlyRun(ONE_GATEWAY, steps) && 0 in After(ONE_GATEWAY, steps).gateways
    ensures After(ONE_GATEWAY, steps).gateways[0] == Gateway(0, multiset{1} + multiset{2}, false)
  {
    OrderlyOneMore(ONE_GATEWAY, [], StartWithout(0));
    var start := [] + [StartWithout(0)];
    assert After(ONE_GATEWAY, start).gateways[0] == Gateway(0, multiset{}, false);
    var one := BumpAndCompare(ONE_GATEWAY, start, 1);
    assert After(ONE_GATEWAY, one).gateways[0] == Gateway(0, multiset{1}, false);
    steps := BumpAndCompare(ONE_GATEWAY, one, 2);
  }

  /**
  The epoch of a gateway may go back, even in an orderly run: of two comparisons that
  both succeed, the older epoch may be stored last.
  */
  lemma {:induction false} GatewayMayGoBack() returns (steps: seq<Step>, last: Step)
    ensures Initial(ONE_GATEWAY) && OrderlyRun(ONE_GATEWAY, steps + [last])
    ensures 0 in After(ONE_GATEWAY, steps).gateways && 0 in After(ONE_GATEWAY, steps + [last]).gateways
    ensures After(ONE_GATEWAY, steps + [last]).gateways[0].epoch < After(ONE_GATEWAY, steps).gateways[0].epoch
  {
    var pending := TwoStoresPending();
    OrderlyOneMore(ONE_GATEWAY, pending, Store(0, 2));
    steps, last := pending + [Store(0, 2)], Store(0, 1);
    assert After(ONE_GATEWAY, steps).gateways[0] == Gateway(2, multiset{1}, false);
    OrderlyOneMore(ONE_GATEWAY, steps, last);
  }

  /**
  Another partition breaks the bound: its epochs reach the one fencer of a node, which
  is then ahead of the default epoch that gateways fetch.
  */
  lemma {:induction false} PartitionsMix() returns (steps: seq<Step>)
    ensures Initial(ONE_NODE) && OrderlyRun(ONE_NODE, steps) && 0 in After(ONE_NODE, steps).nodes
    ensures var s := After(ONE_NODE, steps);
            s.nodes[0].fencer.seen > Current(s.store.epochs, DEFAULT_PARTITION)
  {
    var a, b := Reshard("other", 0, true), CheckLoad(0, 1, true);
    OrderlyOneMore(ONE_NODE, [], a);
    var s1 := After(ONE_NODE, [] + [a]);
    assert s1.store.epochs == map["other" := 1] && s1.messages == {Load(0, 1)} && s1.nodes == ONE_NODE.nodes;
    OrderlyOneMore(ONE_NODE, [] + [a], b);
    steps := [] + [a] + [b];
    assert After(ONE_NODE, steps) == WithNode(s1, 0, NodeChecked(s1.nodes[0], 1, true));
  }

  /** A node whose epoch file cannot be written accepts an older epoch after a crash. */
  lemma LostPersistRegresses() returns (steps: seq<Step>)
    ensures Initial(ONE_NODE) && 0 in After(ONE_NODE, steps).nodes
    ensures After(ONE_NODE, steps).nodes[0].accepted == [5, 3]
  {
    var s1 := [] + [CheckForeign(0, 5, false)];
    var s2 := s1 + [NodeCrash(0)];
    ForeignChecked(ONE_NODE, [], 0, 5, false);
    assert After(ONE_NODE, s1).nodes[0] == Node(FencerState(5, None), [5]);
    NodeRestarted(ONE_NODE, s1, 0);
    assert After(ONE_NODE, s2).nodes[0] == Node(FencerState(0, None), [5]);
    ForeignChecked(ONE_NODE, s2, 0, 3, false);
    steps := s2 + [CheckForeign(0, 3, false)];
  }
}
