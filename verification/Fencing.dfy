/**
Epoch fencing as a distributed system: one control plane, gateways that cache the epoch
with separate load, compare and store steps (cmd/gateway/main.go), and nodes that check
it (cmd/node/main.go). Messages are never taken away, so they may be delayed without
bound, reordered, repeated or lost; every process may crash and restart at any time.
*/
module Fencing {
  import opened Wrappers
  import opened Epoch

  datatype Message =
    | EpochReply(gateway: nat, epoch: uint64)
    | Write(gateway: nat, node: nat, epoch: uint64)
    | Replicate(node: nat, epoch: uint64)
    | Conflict(gateway: nat, seen: uint64)
    | Load(node: nat, epoch: uint64)

  /** `storing` are the epochs that won a comparison and wait for their store. */
  datatype Gateway = Gateway(epoch: uint64, storing: multiset<uint64>, starting: bool)

  /** `accepted` is the history of the epochs that `Check` let through at this node. */
  datatype Node = Node(fencer: FencerState, accepted: seq<uint64>)

  datatype System = System(
    store: StoreState,
    gateways: map<nat, Gateway>,
    nodes: map<nat, Node>,
    messages: set<Message>)

  const NEW_GATEWAY := Gateway(0, multiset{}, true)

  datatype Step =
    // the control plane
    | Poll(gateway: nat)
    | BumpFor(gateway: nat, persisted: bool)
    | Bump(partition: string, persisted: bool)
    | Reshard(partition: string, node: nat, persisted: bool)
    | ControlPlaneCrash
    // a gateway
    | StartWith(gateway: nat, epoch: uint64)
    | StartWithout(gateway: nat)
    | CompareReply(gateway: nat, epoch: uint64)
    | CompareConflict(gateway: nat, seen: uint64)
    | Store(gateway: nat, epoch: uint64)
    | Send(gateway: nat, node: nat)
    | GatewayCrash(gateway: nat)
    // a node
    | CheckWrite(gateway: nat, node: nat, epoch: uint64, persisted: bool)
    | Forward(from: nat, node: nat, epoch: uint64)
    | CheckReplicate(node: nat, epoch: uint64, persisted: bool)
    | CheckLoad(node: nat, epoch: uint64, persisted: bool)
    | CheckForeign(node: nat, epoch: uint64, persisted: bool)
    | NodeCrash(node: nat)

  predicate Serving(s: System, g: nat) {
    g in s.gateways && !s.gateways[g].starting
  }

  predicate Enabled(s: System, step: Step) {
    match step
    case Poll(g) => g in s.gateways
    case BumpFor(g, _) => Serving(s, g)
    case Bump(_, _) => true
    case Reshard(_, n, _) => n in s.nodes
    case ControlPlaneCrash => true
    case StartWith(g, e) => g in s.gateways && s.gateways[g].starting && EpochReply(g, e) in s.messages
    case StartWithout(g) => g in s.gateways && s.gateways[g].starting
    case CompareReply(g, e) => Serving(s, g) && EpochReply(g, e) in s.messages
    case CompareConflict(g, seen) => Serving(s, g) && Conflict(g, seen) in s.messages
    case Store(g, e) => Serving(s, g) && e in s.gateways[g].storing
    case Send(g, n) => Serving(s, g) && n in s.nodes
    case GatewayCrash(g) => g in s.gateways
    case CheckWrite(g, n, e, _) => n in s.nodes && Write(g, n, e) in s.messages
    case Forward(from, n, e) => from in s.nodes && n in s.nodes && e in s.nodes[from].accepted
    case CheckReplicate(n, e, _) => n in s.nodes && Replicate(n, e) in s.messages
    case CheckLoad(n, e, _) => n in s.nodes && Load(n, e) in s.messages
    case CheckForeign(n, _, _) => n in s.nodes
    case NodeCrash(n) => n in s.nodes
  }

  function Compared(g: Gateway, e: uint64): Gateway {
    if e > g.epoch then g.(storing := g.storing + multiset{e}) else g
  }

  function NodeChecked(n: Node, e: uint64, persisted: bool): Node {
    Node(Checked(n.fencer, e, persisted), if Passes(n.fencer, e) then n.accepted + [e] else n.accepted)
  }

  function WithGateway(s: System, g: nat, gateway: Gateway): System {
    s.(gateways := s.gateways[g := gateway])
  }

  function WithNode(s: System, n: nat, node: Node): System {
    s.(nodes := s.nodes[n := node])
  }

  function Sent(s: System, m: Message): System {
    s.(messages := s.messages + {m})
  }

  function Next(s: System, step: Step): System
    requires Enabled(s, step)
  {
    match step
    case Poll(g) => Sent(s, EpochReply(g, Current(s.store.epochs, DEFAULT_PARTITION)))
    case BumpFor(g, persisted) =>
      var store := Bumped(s.store, DEFAULT_PARTITION, persisted);
      Sent(s.(store := store), EpochReply(g, Current(store.epochs, DEFAULT_PARTITION)))
    case Bump(p, persisted) => s.(store := Bumped(s.store, p, persisted))
    case Reshard(p, n, persisted) =>
      var store := Bumped(s.store, p, persisted);
      Sent(s.(store := store), Load(n, Current(store.epochs, p)))
    case ControlPlaneCrash => s.(store := LoadedStore(s.store.file))
    case StartWith(g, e) => WithGateway(s, g, Gateway(e, multiset{}, false))
    case StartWithout(g) => WithGateway(s, g, Gateway(0, multiset{}, false))
    case CompareReply(g, e) => WithGateway(s, g, Compared(s.gateways[g], e))
    case CompareConflict(g, seen) => WithGateway(s, g, Compared(s.gateways[g], seen))
    case Store(g, e) =>
      WithGateway(s, g, s.gateways[g].(epoch := e, storing := s.gateways[g].storing - multiset{e}))
    case Send(g, n) => Sent(s, Write(g, n, s.gateways[g].epoch))
    case GatewayCrash(g) => WithGateway(s, g, NEW_GATEWAY)
    case CheckWrite(g, n, e, persisted) =>
      var after := WithNode(s, n, NodeChecked(s.nodes[n], e, persisted));
      if Passes(s.nodes[n].fencer, e) then after else Sent(after, Conflict(g, s.nodes[n].fencer.seen))
    case Forward(_, n, e) => Sent(s, Replicate(n, e))
    case CheckReplicate(n, e, persisted) => WithNode(s, n, NodeChecked(s.nodes[n], e, persisted))
    case CheckLoad(n, e, persisted) =>
      if e > 0 then WithNode(s, n, NodeChecked(s.nodes[n], e, persisted)) else s
    case CheckForeign(n, e, persisted) => WithNode(s, n, NodeChecked(s.nodes[n], e, persisted))
    case NodeCrash(n) => WithNode(s, n, s.nodes[n].(fencer := Loaded(s.nodes[n].fencer.file)))
  }

  /** The state after a run; a step that is not enabled changes nothing. */
  function After(s: System, steps: seq<Step>): System {
    if steps == [] then s
    else
      var before := After(s, steps[..|steps| - 1]);
      if Enabled(before, steps[|steps| - 1]) then Next(before, steps[|steps| - 1]) else before
  }

  /** New processes, nothing on disk, nothing under way. */
  ghost predicate Initial(s: System) {
    && s.store == LoadedStore(None)
    && (forall g :: g in s.gateways ==> s.gateways[g] == NEW_GATEWAY)
    && (forall n :: n in s.nodes ==> s.nodes[n] == Node(Loaded(None), []))
    && s.messages == {}
  }
}
