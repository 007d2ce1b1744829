/**
One partition (internal/partition/partition.go): a serial loop that owns a log and an
aggregate, serves queued writes one by one or in batches, and compacts.

A channel receive is a step of the loop; `queue` is the content of the apply channel.
*/
module Partition {
  import opened Wrappers
  import opened EventLog
  import opened Aggregate

  const COMPACT_THRESHOLD := 10000

  datatype PartitionState = PartitionState(log: LogState, timeline: seq<TimedKey>)

  /** The timeline a restart begins from. */
  function SnapshotTimeline(disk: Option<DiskState>): seq<TimedKey> {
    if disk.Some? && disk.value.snapshot.Some? then disk.value.snapshot.value.timeline else []
  }

  /** Start-up: open the log, load the snapshot, apply the retained entries. */
  function Started(disk: Option<DiskState>, window: int, noIdempotent: bool, now: int): PartitionState {
    var l := Reopened(disk, now).(noIdempotent := noIdempotent);
    PartitionState(l, AppliedAll(SnapshotTimeline(disk), window, l.entries))
  }

  /** One write: append, and count it if it was accepted. */
  function Applied(s: PartitionState, window: int, c: Call): PartitionState {
    var r := Appended(s.log, c);
    PartitionState(r.state, if r.accepted then AppliedTo(s.timeline, window, r.entry) else s.timeline)
  }

  function AfterApplies(s: PartitionState, window: int, calls: seq<Call>): PartitionState {
    if calls == [] then s
    else Applied(AfterApplies(s, window, calls[..|calls| - 1]), window, calls[|calls| - 1])
  }

  function CallsAt(reqs: seq<Request>, now: int): seq<Call> {
    seq(|reqs|, i requires 0 <= i < |reqs| => Call(reqs[i], now))
  }

  /** Counts and TopK each read the clock and evict. */
  function Queried(s: PartitionState, window: int, now: int, later: int): PartitionState {
    s.(timeline := Evicted(Evicted(s.timeline, now - window), later - window))
  }

  /** Compaction of a long enough log: everything moves into the snapshot. */
  function CompactedAt(s: PartitionState, window: int, now: int): PartitionState {
    if |s.log.entries| < COMPACT_THRESHOLD then s
    else
      var tl := Evicted(s.timeline, now - window);
      PartitionState(Compacted(s.log, Snapshot(s.log.Head(), CountsOf(tl), tl)), tl)
  }

  /** The counts in a snapshot are those of its timeline. */
  ghost predicate WellWritten(disk: Option<DiskState>) {
    disk.Some? && disk.value.snapshot.Some? ==>
      disk.value.snapshot.value.counts == CountsOf(disk.value.snapshot.value.timeline)
  }

  /** The log of a run of writes does not depend on the aggregate. */
  lemma {:induction false} LogOfApplies(s: PartitionState, window: int, calls: seq<Call>)
    ensures AfterApplies(s, window, calls).log == AfterAppends(s.log, calls)
  {
    if calls != [] {
      LogOfApplies(s, window, calls[..|calls| - 1]);
    }
  }

  lemma {:induction false} TimelineOfOneMore(s: PartitionState, window: int, calls: seq<Call>, i: nat)
    requires i < |calls|
    ensures var r, before := ResultOf(s.log, calls, i), AfterApplies(s, window, calls[..i]).timeline;
            AfterApplies(s, window, calls[..i + 1]).timeline ==
            if r.accepted then AppliedTo(before, window, r.entry) else before
  {
    LogOfApplies(s, window, calls[..i]);
    assert calls[..i + 1][..i] == calls[..i];
  }

  datatype ApplyResult = ApplyResult(entry: Entry, accepted: bool)

  /** The answers to a run of writes are those of the unbatched loop. */
  ghost predicate Answers(s: PartitionState, calls: seq<Call>, replies: seq<ApplyResult>) {
    && |replies| == |calls|
    && forall i :: 0 <= i < |calls| ==> Replied(s.log, calls, i, replies[i].entry, replies[i].accepted)
  }

  lemma {:induction false} SingleApply(s: PartitionState, window: int, c: Call)
    ensures AfterApplies(s, window, [c]) == Applied(s, window, c)
    ensures ResultOf(s.log, [c], 0) == Appended(s.log, c)
  {
    assert [c][..0] == [];
    assert AfterApplies(s, window, [c][..0]) == s;
  }

  class Partition {
    const log: Log
    const agg: Aggregate
    const batchMax: int
    var queue: seq<Request>

    ghost predicate Valid()
      reads log, log.dedup, agg
    {
      log.Valid() && agg.Valid()
    }

    ghost function State(): PartitionState
      reads log, log.dedup, log.disk, agg
    {
      PartitionState(log.State(), agg.timeline)
    }

    /** `Open` with the start-up part of `run`. */
    constructor (disk: Disk?, window: int, topK: nat, noIdempotent: bool, batchMax: int, now: int)
      ensures log.Valid() && fresh(log) && fresh(log.dedup) && fresh(agg) && log.disk == disk
      ensures (disk != null ==> WellWritten(Some(disk.State()))) ==> Valid()
      ensures agg.window == window && agg.topK == topK && queue == []
      ensures this.batchMax == if batchMax < 1 then 1 else batchMax
      ensures State() == Started(if disk == null then None else Some(disk.State()), window, noIdempotent, now)
    {
      this.batchMax := if batchMax < 1 then 1 else batchMax;
      queue := [];
      var l := new Log(disk, now);
      l.SetNoIdempotent(noIdempotent);
      var a := new Aggregate(window, topK);
      if disk != null && disk.snapshot.Some? {
        a.LoadSnapshot(disk.snapshot.value);
      }
      ghost var d := if disk == null then None else Some(disk.State());
      assert l.State() == Reopened(d, now).(noIdempotent := noIdempotent);
      assert a.timeline == SnapshotTimeline(d);
      ReplayInto(a, l.entries);
      log, agg := l, a;
    }

    /** The command loop receives a write: it is served with whatever else is waiting. */
    method ServeApply(now: int) returns (replies: seq<ApplyResult>)
      requires Valid() && queue != [] && batchMax >= 1
      modifies this, log, log.dedup, log.disk, agg
      ensures Valid()
      ensures var n := if |old(queue)| < batchMax then |old(queue)| else batchMax;
              var calls := CallsAt(old(queue)[..n], now);
              && queue == old(queue)[n..]
              && State() == AfterApplies(old(State()), agg.window, calls)
              && Answers(old(State()), calls, replies)
    {
      ghost var n := if |queue| < batchMax then |queue| else batchMax;
      ghost var start, calls := State(), CallsAt(queue[..n], now);
      var first := queue[0];
      queue := queue[1..];
      if batchMax > 1 {
        assert [first] + queue[..n - 1] == old(queue)[..n];
        replies := ApplyBatch(first, now);
      } else {
        assert [first] == old(queue)[..n];
        replies := ApplyOne(first, now);
      }
      assert State() == AfterApplies(start, agg.window, calls);
    }

    /** The unbatched branch of the loop. */
    method ApplyOne(req: Request, now: int) returns (replies: seq<ApplyResult>)
      requires Valid()
      modifies log, log.dedup, log.disk, agg
      ensures Valid()
      ensures State() == AfterApplies(old(State()), agg.window, CallsAt([req], now))
      ensures Answers(old(State()), CallsAt([req], now), replies)
    {
      ghost var start := State();
      var e, accepted := log.Append(req.id, req.key, req.value, now);
      if accepted {
        agg.Apply(e);
      }
      replies := [ApplyResult(e, accepted)];
      SingleApply(start, agg.window, Call(req, now));
      assert CallsAt([req], now) == [Call(req, now)];
    }

    method ApplyBatch(first: Request, now: int) returns (replies: seq<ApplyResult>)
      requires Valid() && batchMax >= 1
      modifies this, log, log.dedup, log.disk, agg
      ensures Valid()
      ensures var n := if |old(queue)| < batchMax - 1 then |old(queue)| else batchMax - 1;
              var calls := CallsAt([first] + old(queue)[..n], now);
              && queue == old(queue)[n..]
              && State() == AfterApplies(old(State()), agg.window, calls)
              && Answers(old(State()), calls, replies)
    {
      var cmds := Drain(first);
      var ids := seq(|cmds|, i requires 0 <= i < |cmds| => cmds[i].id);
      var keys := seq(|cmds|, i requires 0 <= i < |cmds| => cmds[i].key);
      var values := seq(|cmds|, i requires 0 <= i < |cmds| => cmds[i].value);
      ghost var start, calls := State(), CallsAt(cmds, now);
      assert BatchCalls(ids, keys, values, now) == calls;
      var entries, accepted := log.AppendBatch(ids, keys, values, now);
      replies := CountAndReply(entries, accepted, start, calls);
      LogOfApplies(start, agg.window, calls);
    }

    method CountOne(e: Entry, accepted: bool, ghost start: PartitionState, ghost calls: seq<Call>, ghost i: nat)
      requires i < |calls| && Replied(start.log, calls, i, e, accepted)
      requires agg.Valid() && agg.timeline == AfterApplies(start, agg.window, calls[..i]).timeline
      modifies agg
      ensures agg.Valid() && agg.timeline == AfterApplies(start, agg.window, calls[..i + 1]).timeline
    {
      TimelineOfOneMore(start, agg.window, calls, i);
      if accepted {
        agg.Apply(e);
      }
    }

    /** The second loop of a batch: count what was accepted, answer in order. */
    method CountAndReply(entries: seq<Entry>, accepted: seq<bool>,
                         ghost start: PartitionState, ghost calls: seq<Call>)
      returns (replies: seq<ApplyResult>)
      requires agg.Valid() && agg.timeline == start.timeline
      requires |entries| == |calls| && RepliedAll(start.log, calls, entries, accepted)
      modifies agg
      ensures agg.Valid()
      ensures agg.timeline == AfterApplies(start, agg.window, calls).timeline
      ensures Answers(start, calls, replies)
    {
      replies := [];
      for i := 0 to |entries|
        invariant agg.Valid()
        invariant agg.timeline == AfterApplies(start, agg.window, calls[..i]).timeline
        invariant |replies| == i
        invariant forall j :: 0 <= j < i ==> replies[j] == ApplyResult(entries[j], accepted[j])
      {
        CountOne(entries[i], accepted[i], start, calls, i);
        replies := replies + [ApplyResult(entries[i], accepted[i])];
      }
      assert calls[..|entries|] == calls;
    }

    /** Takes waiting writes without blocking until the batch is full. */
    method Drain(first: Request) returns (cmds: seq<Request>)
      requires batchMax >= 1
      modifies this
      ensures var n := if |old(queue)| < batchMax - 1 then |old(queue)| else batchMax - 1;
              cmds == [first] + old(queue)[..n] && queue == old(queue)[n..]
    {
      cmds := [first];
      while |cmds| < batchMax && queue != []
        invariant 1 <= |cmds| <= batchMax && |cmds| - 1 <= |old(queue)|
        invariant cmds == [first] + old(queue)[..|cmds| - 1]
        invariant queue == old(queue)[|cmds| - 1..]
      {
        cmds, queue := cmds + [queue[0]], queue[1..];
      }
    }

    method QueryCounts(now: int) returns (counts: map<string, nat>)
      requires Valid()
      modifies agg
      ensures Valid() && agg.timeline == Evicted(old(agg.timeline), now - agg.window)
      ensures counts == CountsOf(agg.timeline)
    {
      counts := agg.Counts(now);
    }

    method QueryTop(now: int) returns (top: seq<TopEntry>)
      requires Valid()
      modifies agg
      ensures Valid() && agg.timeline == Evicted(old(agg.timeline), now - agg.window)
      ensures IsTopK(agg.counts, agg.topK, top)
    {
      top := agg.TopK(now);
    }

    method Query(now: int, later: int) returns (counts: map<string, nat>, top: seq<TopEntry>)
      requires Valid()
      modifies agg
      ensures Valid() && State() == Queried(old(State()), agg.window, now, later)
      ensures counts == CountsOf(Evicted(old(agg.timeline), now - agg.window))
      ensures agg.counts == CountsOf(agg.timeline) && IsTopK(agg.counts, agg.topK, top)
    {
      counts := QueryCounts(now);
      top := QueryTop(later);
    }

    method LogSince(offset: nat) returns (tail: seq<Entry>)
      ensures tail == SinceOf(log.State(), offset)
    {
      tail := log.Since(offset);
    }

    method Head() returns (h: nat)
      ensures h == log.State().Head()
    {
      h := log.Head();
    }

    method Compact(now: int)
      requires Valid()
      modifies log, log.disk, agg
      ensures Valid() && State() == CompactedAt(old(State()), agg.window, now)
    {
      if |log.entries| >= COMPACT_THRESHOLD {
        var head := log.Head();
        var snap := agg.Snapshot(head, now);
        log.Compact(snap);
      }
    }
  }

  /** The start-up loop over the retained entries. */
  method ReplayInto(a: Aggregate, es: seq<Entry>)
    modifies a
    ensures a.timeline == AppliedAll(old(a.timeline), a.window, es)
    ensures old(a.Valid()) ==> a.Valid()
  {
    for i := 0 to |es|
      invariant a.timeline == AppliedAll(old(a.timeline), a.window, es[..i])
      invariant old(a.Valid()) ==> a.Valid()
    {
      a.Apply(es[i]);
      assert es[..i + 1][..i] == es[..i];
    }
    assert es[..|es|] == es;
  }
}
