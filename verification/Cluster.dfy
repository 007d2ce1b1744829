/**
Primary replication across the nodes of a cluster (cmd/node/main.go): every node has a log
of its own, and a success is measured by the logs that hold the entry.

A post may be delayed, repeated or lost, and so may its answer; a node may stop and start
again from its disk at any time.
*/
module Cluster {
  import opened Wrappers
  import opened Dedup
  import opened EventLog
  import opened LogProperties
  import opened LogContents
  import opened Quorum
  import opened Replication
  import opened Primary

  /**
  One event at its primary. `delivered` are the targets its post has reached, and `heard`
  those whose 204 has come back.
  */
  datatype Write = Write(
    node: string,
    req: Request,
    targets: set<string>,
    isNew: bool,
    delivered: set<string>,
    heard: set<string>)

  datatype System = System(logs: map<string, LogState>, writes: seq<Write>)

  datatype Step =
    // `handleEvent` at a primary, up to the posts
    | Submit(node: string, req: Request, replicas: seq<string>, live: Option<set<string>>, now: int)
    // `handleReplicate` at a target of the i-th write
    | Deliver(i: nat, node: string, now: int)
    // its answer reaches the primary
    | Hear(i: nat, node: string)
    // a node starts again
    | Restart(node: string, noIdempotent: bool, now: int)

  predicate Enabled(s: System, step: Step) {
    match step
    case Submit(node, _, _, _, _) => node in s.logs
    case Deliver(i, node, _) =>
      i < |s.writes| && s.writes[i].isNew && node in s.writes[i].targets && node in s.logs
    case Hear(i, node) => i < |s.writes| && node in s.writes[i].delivered
    case Restart(node, _, _) => node in s.logs
  }

  function Next(s: System, step: Step): System
    requires Enabled(s, step)
  {
    match step
    case Submit(node, req, replicas, live, now) =>
      var r := Appended(s.logs[node], Call(req, now));
      var targets := set t | t in Targets(replicas, node, live);
      System(s.logs[node := r.state], s.writes + [Write(node, req, targets, r.accepted, {}, {})])
    case Deliver(i, node, now) =>
      var r := Appended(s.logs[node], Call(s.writes[i].req, now));
      System(s.logs[node := r.state],
             s.writes[i := s.writes[i].(delivered := s.writes[i].delivered + {node})])
    case Hear(i, node) =>
      s.(writes := s.writes[i := s.writes[i].(heard := s.writes[i].heard + {node})])
    case Restart(node, noIdempotent, now) =>
      s.(logs := s.logs[node := Reopened(s.logs[node].disk, now).(noIdempotent := noIdempotent)])
  }

  function After(s: System, steps: seq<Step>): System {
    if steps == [] then s
    else
      var before := After(s, steps[..|steps| - 1]);
      if Enabled(before, steps[|steps| - 1]) then Next(before, steps[|steps| - 1]) else before
  }

  /** New nodes on empty disks. */
  ghost predicate Initial(s: System) {
    && (forall n :: n in s.logs ==> s.logs[n] == EMPTY_LOG)
    && s.writes == []
  }

  /** The nodes whose log holds an entry with this id. */
  function Holders(s: System, id: string): set<string> {
    set n | n in s.logs && id in Ids(s.logs[n].entries)
  }

  /** The nodes that took a write as new, and those its posts have reached. */
  function PlacedBy(w: Write): set<string> {
    if w.isNew then {w.node} + w.delivered else {}
  }

  function Placed(writes: seq<Write>, id: string): set<string> {
    if writes == [] then {}
    else
      var before, w := Placed(writes[..|writes| - 1], id), writes[|writes| - 1];
      if w.req.id == id then before + PlacedBy(w) else before
  }

  /** What the i-th write is answered when its fan-out ends now. */
  function AnswerOf(s: System, i: nat, w: int): Status
    requires i < |s.writes|
  {
    EventStatus(s.writes[i].isNew, true, |s.writes[i].heard| >= w - 1)
  }

  // ----- what every step keeps -----

  /** The WAL has the ids of the log, and the dedup table no others. */
  ghost predicate Backed(l: LogState) {
    && l.disk.Some?
    && Ids(l.disk.value.wal) == Ids(l.entries)
    && forall id :: id in l.at ==> id in Ids(l.entries)
  }

  ghost predicate WellFormed(s: System, w: Write) {
    && w.node in s.logs
    && w.node !in w.targets
    && w.heard <= w.delivered <= w.targets
    && (w.delivered != {} ==> w.isNew)
    && forall n :: n in w.delivered ==> n in s.logs
  }

  /** Every write has left its entry where it says. */
  ghost predicate Consistent(s: System) {
    && (forall n :: n in s.logs ==> Backed(s.logs[n]))
    && (forall i :: 0 <= i < |s.writes| ==> WellFormed(s, s.writes[i]))
    && (forall i :: 0 <= i < |s.writes| ==> s.writes[i].node in Holders(s, s.writes[i].req.id))
  }

  /** No node loses an entry. */
  ghost predicate Grown(s: System, s': System) {
    forall id :: Holders(s, id) <= Holders(s', id)
  }

  /** The logs hold exactly what was placed in them. */
  ghost predicate Placing(s: System) {
    forall id :: Holders(s, id) == Placed(s.writes, id)
  }

  /** An append leaves the log with the id, whatever its verdict, and with no other new id. */
  lemma {:induction false} AppendBacked(l: LogState, c: Call)
    requires Backed(l)
    ensures Backed(Appended(l, c).state)
    ensures Ids(Appended(l, c).state.entries) == Ids(l.entries) + {c.req.id}
    ensures !Appended(l, c).accepted ==> c.req.id in Ids(l.entries)
  {
    var r := Appended(l, c);
    if r.accepted {
      IdsSnoc(l.entries, r.entry);
      IdsSnoc(l.disk.value.wal, r.entry);
    } else {
      assert Ids(l.entries) + {c.req.id} == Ids(l.entries);
    }
  }

  /** A restart loses no id. */
  lemma {:induction false} ReopenBacked(l: LogState, noIdempotent: bool, now: int)
    requires Backed(l)
    ensures var r := Reopened(l.disk, now).(noIdempotent := noIdempotent);
            Backed(r) && Ids(r.entries) == Ids(l.entries)
  {
    var d := l.disk.value;
    var base := SnapshotBase(d);
    ReplayKeepsIds(base, d.wal);
    forall id | id in ReplayedTable(Replay(base, d.wal)) ensures id in Ids(d.wal) {
      ReplayedTableExact(base, d.wal, id);
    }
  }

  lemma {:induction false} PlacedUpdate(writes: seq<Write>, i: nat, w: Write, node: string, id: string)
    requires i < |writes| && w.req == writes[i].req
    requires PlacedBy(w) == PlacedBy(writes[i]) + {node}
    ensures Placed(writes[i := w], id) == Placed(writes, id) + (if w.req.id == id then {node} else {})
  {
    var n := |writes| - 1;
    if i < n {
      PlacedUpdate(writes[..n], i, w, node, id);
      assert writes[i := w][..n] == writes[..n][i := w];
    } else {
      assert writes[i := w][..n] == writes[..n];
    }
  }

  lemma {:induction false} PlacedSnoc(writes: seq<Write>, w: Write, id: string)
    ensures Placed(writes + [w], id) ==
            if w.req.id == id then Placed(writes, id) + PlacedBy(w) else Placed(writes, id)
  {
    assert (writes + [w])[..|writes|] == writes;
  }

  lemma {:induction false} PlacedSame(writes: seq<Write>, i: nat, w: Write, id: string)
    requires i < |writes| && w.req == writes[i].req && PlacedBy(w) == PlacedBy(writes[i])
    ensures Placed(writes[i := w], id) == Placed(writes, id)
  {
    var n := |writes| - 1;
    if i < n {
      PlacedSame(writes[..n], i, w, id);
      assert writes[i := w][..n] == writes[..n][i := w];
    } else {
      assert writes[i := w][..n] == writes[..n];
    }
  }

  /** One append at a node makes it a holder of the id, and changes no other holder. */
  lemma {:induction false} AppendHolders(s: System, node: string, c: Call, id: string)
    requires node in s.logs && Backed(s.logs[node])
    ensures var s' := s.(logs := s.logs[node := Appended(s.logs[node], c).state]);
            Holders(s', id) == Holders(s, id) + (if c.req.id == id then {node} else {})
  {
    AppendBacked(s.logs[node], c);
  }

  lemma {:induction false} AppendKeeps(s: System, node: string, c: Call)
    requires Consistent(s) && node in s.logs
    ensures var s' := s.(logs := s.logs[node := Appended(s.logs[node], c).state]);
            Grown(s, s') && Consistent(s') && node in Holders(s', c.req.id)
  {
    var s' := s.(logs := s.logs[node := Appended(s.logs[node], c).state]);
    AppendBacked(s.logs[node], c);
    forall id ensures Holders(s, id) <= Holders(s', id) {
      AppendHolders(s, node, c, id);
    }
    AppendHolders(s, node, c, c.req.id);
    forall i | 0 <= i < |s'.writes|
      ensures WellFormed(s', s'.writes[i]) && s'.writes[i].node in Holders(s', s'.writes[i].req.id)
    {
      assert WellFormed(s, s.writes[i]);
      assert Holders(s, s.writes[i].req.id) <= Holders(s', s.writes[i].req.id);
    }
  }

  /** What becomes of the writes when the logs stay. */
  lemma WritesKeep(s: System, writes: seq<Write>)
    requires forall n :: n in s.logs ==> Backed(s.logs[n])
    requires forall i :: 0 <= i < |writes| ==>
               WellFormed(s, writes[i]) && writes[i].node in Holders(s, writes[i].req.id)
    ensures Consistent(s.(writes := writes)) && Grown(s, s.(writes := writes))
  {
    var s' := s.(writes := writes);
    forall id ensures Holders(s', id) == Holders(s, id) {}
    forall i | 0 <= i < |writes|
      ensures WellFormed(s', writes[i]) && writes[i].node in Holders(s', writes[i].req.id)
    {
    }
  }

  lemma {:induction false} SubmitKeeps(s: System, node: string, req: Request, replicas: seq<string>,
                                       live: Option<set<string>>, now: int)
    requires Consistent(s) && node in s.logs
    ensures var s' := Next(s, Submit(node, req, replicas, live, now));
            Consistent(s') && Grown(s, s')
  {
    var s' := Next(s, Submit(node, req, replicas, live, now));
    var mid := s.(logs := s'.logs);
    AppendKeeps(s, node, Call(req, now));
    NotOwnTarget(replicas, node, live);
    WritesKeep(mid, s'.writes);
  }

  lemma SubmitPlaces(s: System, node: string, req: Request, replicas: seq<string>, live: Option<set<string>>,
                     now: int)
    requires Consistent(s) && Placing(s) && node in s.logs
    ensures Placing(Next(s, Submit(node, req, replicas, live, now)))
  {
    var s' := Next(s, Submit(node, req, replicas, live, now));
    forall id ensures Holders(s', id) == Placed(s'.writes, id) {
      SubmitPlacesOne(s, node, Call(req, now), s'.writes[|s.writes|], id);
      assert Holders(s', id) == Holders(s.(logs := s'.logs), id);
    }
  }

  /** The node becomes a holder if it was none, and then the write is new. */
  lemma {:induction false} SubmitPlacesOne(s: System, node: string, c: Call, w: Write, id: string)
    requires Consistent(s) && Placing(s) && node in s.logs
    requires w.node == node && w.req == c.req && w.delivered == {}
    requires w.isNew == Appended(s.logs[node], c).accepted
    ensures Holders(s.(logs := s.logs[node := Appended(s.logs[node], c).state]), id) == Placed(s.writes + [w], id)
  {
    AppendHolders(s, node, c, id);
    PlacedSnoc(s.writes, w, id);
    assert Holders(s, id) == Placed(s.writes, id);
    if c.req.id == id {
      if w.isNew {
        assert PlacedBy(w) == {node};
      } else {
        RefusedIsHeld(s, node, c);
        assert Holders(s, id) + {node} == Holders(s, id) && PlacedBy(w) == {};
      }
    } else {
      assert Holders(s, id) + {} == Holders(s, id);
    }
  }

  lemma RefusedIsHeld(s: System, node: string, c: Call)
    requires node in s.logs && Backed(s.logs[node]) && !Appended(s.logs[node], c).accepted
    ensures node in Holders(s, c.req.id)
  {
    AppendBacked(s.logs[node], c);
  }

  lemma {:induction false} NotOwnTarget(replicas: seq<string>, self: string, live: Option<set<string>>)
    ensures self !in Targets(replicas, self, live)
  {
    if replicas != [] {
      NotOwnTarget(replicas[..|replicas| - 1], self, live);
    }
  }

  lemma {:induction false} DeliverKeeps(s: System, i: nat, node: string, now: int)
    requires Consistent(s) && Enabled(s, Deliver(i, node, now))
    ensures var s' := Next(s, Deliver(i, node, now));
            Consistent(s') && Grown(s, s')
  {
    var s' := Next(s, Deliver(i, node, now));
    var mid := s.(logs := s'.logs);
    AppendKeeps(s, node, Call(s.writes[i].req, now));
    assert WellFormed(mid, s'.writes[i]) by {
      assert WellFormed(mid, mid.writes[i]);
    }
    forall k | 0 <= k < |s'.writes| && k != i
      ensures WellFormed(mid, s'.writes[k]) && s'.writes[k].node in Holders(mid, s'.writes[k].req.id)
    {
      assert s'.writes[k] == mid.writes[k];
    }
    WritesKeep(mid, s'.writes);
  }

  lemma {:induction false} DeliverPlaces(s: System, i: nat, node: string, now: int)
    requires Consistent(s) && Placing(s) && Enabled(s, Deliver(i, node, now))
    ensures Placing(Next(s, Deliver(i, node, now)))
  {
    var s' := Next(s, Deliver(i, node, now));
    var mid := s.(logs := s'.logs);
    forall id ensures Holders(s', id) == Placed(s'.writes, id) {
      AppendHolders(s, node, Call(s.writes[i].req, now), id);
      assert Holders(s', id) == Holders(mid, id);
      PlacedUpdate(s.writes, i, s'.writes[i], node, id);
    }
  }

  lemma {:induction false} HearKeeps(s: System, i: nat, node: string)
    requires Consistent(s) && Placing(s) && Enabled(s, Hear(i, node))
    ensures var s' := Next(s, Hear(i, node));
            Consistent(s') && Placing(s') && Grown(s, s')
  {
    var s' := Next(s, Hear(i, node));
    assert WellFormed(s, s.writes[i]);
    WritesKeep(s, s'.writes);
    forall id ensures Holders(s', id) == Placed(s'.writes, id) {
      assert Holders(s', id) == Holders(s, id);
      PlacedSame(s.writes, i, s'.writes[i], id);
    }
  }

  lemma {:induction false} RestartKeeps(s: System, node: string, noIdempotent: bool, now: int)
    requires Consistent(s) && Placing(s) && node in s.logs
    ensures var s' := Next(s, Restart(node, noIdempotent, now));
            Consistent(s') && Placing(s') && Grown(s, s')
  {
    var s' := Next(s, Restart(node, noIdempotent, now));
    ReopenBacked(s.logs[node], noIdempotent, now);
    forall id ensures Holders(s', id) == Holders(s, id) {}
    forall i | 0 <= i < |s'.writes|
      ensures WellFormed(s', s'.writes[i]) && s'.writes[i].node in Holders(s', s'.writes[i].req.id)
    {
      assert WellFormed(s, s.writes[i]);
    }
  }

  lemma {:induction false} NextPlaces(s: System, step: Step)
    requires Consistent(s) && Placing(s) && Enabled(s, step)
    ensures Consistent(Next(s, step)) && Placing(Next(s, step)) && Grown(s, Next(s, step))
  {
    match step {
      case Submit(node, req, replicas, live, now) =>
        SubmitKeeps(s, node, req, replicas, live, now);
        SubmitPlaces(s, node, req, replicas, live, now);
      case Deliver(i, node, now) =>
        DeliverKeeps(s, i, node, now);
        DeliverPlaces(s, i, node, now);
      case Hear(i, node) =>
        HearKeeps(s, i, node);
      case Restart(node, noIdempotent, now) =>
        RestartKeeps(s, node, noIdempotent, now);
    }
  }

  lemma {:induction false} RunPlaces(s: System, steps: seq<Step>)
    requires Initial(s)
    ensures Consistent(After(s, steps)) && Placing(After(s, steps))
  {
    if steps != [] {
      var n := |steps| - 1;
      RunPlaces(s, steps[..n]);
      var before := After(s, steps[..n]);
      if Enabled(before, steps[n]) {
        NextPlaces(before, steps[n]);
      }
    }
  }

  /** Writes keep their request and their number, and no node loses an entry. */
  lemma {:induction false} RunGrows(s: System, steps: seq<Step>, k: nat)
    requires Initial(s) && k <= |steps|
    ensures var sooner, later := After(s, steps[..k]), After(s, steps);
            && Grown(sooner, later)
            && |sooner.writes| <= |later.writes|
            && forall i :: 0 <= i < |sooner.writes| ==> later.writes[i].req == sooner.writes[i].req
    decreases |steps|
  {
    if k == |steps| {
      assert steps[..k] == steps;
    } else {
      var n := |steps| - 1;
      RunGrows(s, steps[..n], k);
      assert steps[..n][..k] == steps[..k];
      RunPlaces(s, steps[..n]);
      if Enabled(After(s, steps[..n]), steps[n]) {
        NextPlaces(After(s, steps[..n]), steps[n]);
      }
    }
  }

  // ----- what an answer means for the logs -----

  /**
  Over all runs, with posts and answers delayed, repeated or lost and nodes restarting:
  the logs that hold an id are exactly those of the primaries that took it as new and
  those their posts have reached. Every node that answered with success is among them.
  */
  lemma {:induction false} HoldersExact(s: System, steps: seq<Step>, id: string)
    requires Initial(s)
    ensures var s' := After(s, steps);
            && Holders(s', id) == Placed(s'.writes, id)
            && forall i :: 0 <= i < |s'.writes| && s'.writes[i].req.id == id ==>
                 s'.writes[i].node in Holders(s', id) && s'.writes[i].delivered <= Holders(s', id)
  {
    RunPlaces(s, steps);
    var s' := After(s, steps);
    forall i | 0 <= i < |s'.writes| && s'.writes[i].req.id == id
      ensures s'.writes[i].delivered <= Holders(s', id)
    {
      PlacedContains(s'.writes, i);
    }
  }

  lemma {:induction false} PlacedContains(writes: seq<Write>, i: nat)
    requires i < |writes|
    ensures PlacedBy(writes[i]) <= Placed(writes, writes[i].req.id)
  {
    var n := |writes| - 1;
    if i < n {
      PlacedContains(writes[..n], i);
    }
  }

  lemma {:induction false} HeardHold(s: System, steps: seq<Step>, i: nat, w: int)
    requires Initial(s) && i < |After(s, steps).writes|
    requires AnswerOf(After(s, steps), i, w) == CREATED
    ensures var s' := After(s, steps);
            && |Holders(s', s'.writes[i].req.id)| >= w
            && s'.writes[i].node in Holders(s', s'.writes[i].req.id)
  {
    var s' := After(s, steps);
    var write := s'.writes[i];
    RunPlaces(s, steps);
    HoldersExact(s, steps, write.req.id);
    assert WellFormed(s', write);
    SubsetSize({write.node} + write.heard, Holders(s', write.req.id));
    assert |{write.node} + write.heard| == 1 + |write.heard|;
  }

  /**
  A 201 means w logs: over all runs, when a primary answers 201 after k steps, then at
  least w nodes hold the entry from there on, the primary among them.
  */
  lemma {:induction false} CreatedMeansLogs(s: System, steps: seq<Step>, k: nat, i: nat, w: int)
    requires Initial(s) && k <= |steps| && i < |After(s, steps[..k]).writes|
    requires AnswerOf(After(s, steps[..k]), i, w) == CREATED
    ensures var write := After(s, steps[..k]).writes[i];
            var holders := Holders(After(s, steps), write.req.id);
            |holders| >= w && write.node in holders
  {
    var write := After(s, steps[..k]).writes[i];
    HeardHold(s, steps[..k], i, w);
    RunGrows(s, steps, k);
    SubsetSize(Holders(After(s, steps[..k]), write.req.id), Holders(After(s, steps), write.req.id));
  }

  /**
  A 200 means that the node holds the entry, and two nodes do if it got the id in a post.
  Whether w nodes do is decided by the posts that were delivered, not by the answer.
  */
  lemma {:induction false} DuplicateMeansPlaced(s: System, steps: seq<Step>, i: nat, w: int)
    requires Initial(s) && i < |After(s, steps).writes|
    requires AnswerOf(After(s, steps), i, w) == OK
    ensures var s' := After(s, steps);
            var write := s'.writes[i];
            && write.node in Holders(s', write.req.id)
            && (|Holders(s', write.req.id)| >= w <==> |Placed(s'.writes, write.req.id)| >= w)
            && ((forall k :: 0 <= k < |s'.writes| && s'.writes[k].req.id == write.req.id && s'.writes[k].isNew ==>
                   s'.writes[k].node != write.node) ==> |Holders(s', write.req.id)| >= 2)
  {
    var s' := After(s, steps);
    var write := s'.writes[i];
    RunPlaces(s, steps);
    HoldersExact(s, steps, write.req.id);
    if forall k :: 0 <= k < |s'.writes| && s'.writes[k].req.id == write.req.id && s'.writes[k].isNew ==>
                     s'.writes[k].node != write.node {
      var k := PlacedWhere(s'.writes, write.req.id, write.node);
      PlacedContains(s'.writes, k);
      SubsetSize({s'.writes[k].node} + {write.node}, Holders(s', write.req.id));
      assert |{s'.writes[k].node} + {write.node}| == 2;
    }
  }

  lemma {:induction false} PlacedWhere(writes: seq<Write>, id: string, node: string) returns (k: nat)
    requires node in Placed(writes, id)
    ensures k < |writes| && writes[k].req.id == id && writes[k].isNew && node in PlacedBy(writes[k])
  {
    var n := |writes| - 1;
    if node in Placed(writes[..n], id) {
      k := PlacedWhere(writes[..n], id, node);
    } else {
      k := n;
    }
  }

  // ----- what the steps achieve -----

  /** The post of a new write goes to exactly the live replicas other than its primary. */
  lemma {:induction false} PostedTo(s: System, node: string, req: Request, replicas: seq<string>,
                                    live: Option<set<string>>, now: int)
    requires Enabled(s, Submit(node, req, replicas, live, now))
    ensures var s' := Next(s, Submit(node, req, replicas, live, now));
            forall r, t :: r in s'.logs ==>
              (Enabled(s', Deliver(|s.writes|, r, t)) <==>
                 && Appended(s.logs[node], Call(req, now)).accepted
                 && r in replicas && r != node && (live.None? || r in live.value))
  {
    TargetsExact(replicas, node, live);
  }

  /** A new write whose one other replica is reached and heard is answered 201 with w = 2. */
  lemma {:induction false} PostIsHeard(s: System, node: string, other: string, req: Request, now: int, later: int)
    requires node in s.logs && other in s.logs && node != other
    requires Appended(s.logs[node], Call(req, now)).accepted
    ensures var i, submit := |s.writes|, Submit(node, req, [node, other], None, now);
            && Enabled(s, submit)
            && var s1 := Next(s, submit);
               && AnswerOf(s1, i, 2) == UNAVAILABLE
               && Enabled(s1, Deliver(i, other, later))
               && Enabled(Next(s1, Deliver(i, other, later)), Hear(i, other))
               && AnswerOf(Next(Next(s1, Deliver(i, other, later)), Hear(i, other)), i, 2) == CREATED
  {
    var i, submit := |s.writes|, Submit(node, req, [node, other], None, now);
    PostedTo(s, node, req, [node, other], None, now);
    var s1 := Next(s, submit);
    assert Enabled(s1, Deliver(i, other, later));
    var s2 := Next(s1, Deliver(i, other, later));
    assert s1.writes[i].heard == {};
    assert s2.writes[i].delivered == {other} && s2.writes[i].heard == {};
    assert Next(s2, Hear(i, other)).writes[i].heard == {other};
  }

  /**
  A node that starts again remembers exactly the ids whose first WAL record is within the
  TTL, has the mode it is started with, and its disk as it was.
  */
  lemma RestartedNodeRemembers(s: System, node: string, noIdempotent: bool, now: int, id: string)
    requires node in s.logs && s.logs[node].disk.Some?
    ensures var l := Next(s, Restart(node, noIdempotent, now)).logs[node];
            var wal := s.logs[node].disk.value.wal;
            && l.noIdempotent == noIdempotent && l.disk == s.logs[node].disk
            && (id in l.at <==> exists i :: FirstWith(wal, i, id) && Unix(wal[i].timestamp) > Cutoff(now))
  {
    ReopenedTableExact(s.logs[node].disk.value, now, id);
  }
}
