/**
Recovery refines the live partition: stopping between two commands and starting again
from the disk gives the same log and, at every later time, the same counts.
*/
module Recovery {
  import opened Wrappers
  import opened EventLog
  import opened LogProperties
  import opened Aggregate
  import opened AggregateProperties
  import opened Partition

  datatype Command =
    | Write(reqs: seq<Request>, now: int)
    | Query(now: int, later: int)
    | Compact(now: int)
    | Restart(noIdempotent: bool, now: int)

  function AfterCommand(s: PartitionState, window: int, c: Command): PartitionState {
    match c
    case Write(reqs, now) => AfterApplies(s, window, CallsAt(reqs, now))
    case Query(now, later) => Queried(s, window, now, later)
    case Compact(now) => CompactedAt(s, window, now)
    case Restart(noIdempotent, now) => Started(s.log.disk, window, noIdempotent, now)
  }

  function AfterCommands(s: PartitionState, window: int, cs: seq<Command>): PartitionState {
    if cs == [] then s
    else AfterCommand(AfterCommands(s, window, cs[..|cs| - 1]), window, cs[|cs| - 1])
  }

  ghost predicate NotAfter(c: Command, clock: int) {
    match c
    case Write(_, now) => now <= clock
    case Query(now, later) => now <= clock && later <= clock
    case Compact(now) => now <= clock
    case Restart(_, now) => now <= clock
  }

  /**
  Offsets stay inside 64 bits, and a restart meets a WAL whose ids are distinct.
  */
  ghost predicate Admissible(s: PartitionState, c: Command) {
    && s.log.Head() < TWO_TO_THE_64
    && (c.Restart? ==> DistinctIds(s.log.entries))
  }

  ghost predicate AdmissibleRun(s: PartitionState, window: int, cs: seq<Command>) {
    cs == [] ||
    var before := cs[..|cs| - 1];
    AdmissibleRun(s, window, before) && Admissible(AfterCommands(s, window, before), cs[|cs| - 1])
  }

  /** What the retained entries add to a timeline. */
  function Keyed(es: seq<Entry>): seq<TimedKey> {
    if es == [] then []
    else Keyed(es[..|es| - 1]) + [TimedKey(es[|es| - 1].key, es[|es| - 1].timestamp)]
  }

  /** The timeline on disk: the snapshot's, then one element per WAL record. */
  function DiskTimeline(l: LogState): seq<TimedKey> {
    SnapshotTimeline(l.disk) + Keyed(l.entries)
  }

  /**
  The invariant between commands: the log is on disk, and the live timeline is the
  timeline on disk but for elements that have left every window from now on.
  */
  ghost predicate Recoverable(s: PartitionState, window: int, clock: int) {
    && Durable(s.log)
    && WellWritten(s.log.disk)
    && (forall i :: 0 <= i < |s.log.entries| ==> s.log.entries[i].timestamp <= clock)
    && Trails(s.timeline, DiskTimeline(s.log), clock - window)
  }

  /** What a query at time t reports. */
  function CountsAt(s: PartitionState, window: int, t: int): map<string, nat> {
    CountsOf(Evicted(s.timeline, t - window))
  }

  /** One accepted write keeps the invariant: timeline and WAL grow by the same element. */
  lemma {:induction false} WriteRecoverable(s: PartitionState, window: int, clock: int, c: Call)
    requires Recoverable(s, window, clock) && c.now <= clock
    ensures Recoverable(Applied(s, window, c), window, clock)
  {
    var r := Appended(s.log, c);
    var s' := Applied(s, window, c);
    assert Durable(r.state) && WellWritten(r.state.disk);
    if r.accepted {
      var x := TimedKey(r.entry.key, r.entry.timestamp);
      assert r.state.entries == s.log.entries + [r.entry];
      assert DiskTimeline(s'.log) == DiskTimeline(s.log) + [x] by {
        OneWriteOnDisk(s.log, c);
      }
      StepTrails(s.timeline, DiskTimeline(s.log), clock - window, c.now - window, x);
    }
  }

  lemma {:induction false} WritesRecoverable(s: PartitionState, window: int, clock: int, calls: seq<Call>)
    requires Recoverable(s, window, clock)
    requires forall i :: 0 <= i < |calls| ==> calls[i].now <= clock
    ensures Recoverable(AfterApplies(s, window, calls), window, clock)
  {
    if calls != [] {
      var n := |calls| - 1;
      WritesRecoverable(s, window, clock, calls[..n]);
      WriteRecoverable(AfterApplies(s, window, calls[..n]), window, clock, calls[n]);
    }
  }

  lemma EvictRecoverable(s: PartitionState, window: int, clock: int, now: int)
    requires Recoverable(s, window, clock) && now <= clock
    ensures Recoverable(s.(timeline := Evicted(s.timeline, now - window)), window, clock)
  {
    EvictionTrails(s.timeline, DiskTimeline(s.log), clock - window, now - window);
  }

  lemma {:induction false} CompactDisk(s: PartitionState, window: int, now: int)
    requires Durable(s.log) && s.log.Head() < TWO_TO_THE_64 && |s.log.entries| >= COMPACT_THRESHOLD
    ensures DiskTimeline(CompactedAt(s, window, now).log) == Evicted(s.timeline, now - window)
  {
    var tl := Evicted(s.timeline, now - window);
    CompactionInvisible(s.log, Snapshot(s.log.Head(), CountsOf(tl), tl), s.log.Head());
    assert CompactedAt(s, window, now).log.entries == [];
  }

  /** After a compaction the disk holds exactly the live timeline. */
  lemma CompactRecoverable(s: PartitionState, window: int, clock: int, now: int)
    requires Recoverable(s, window, clock) && now <= clock && s.log.Head() < TWO_TO_THE_64
    ensures Recoverable(CompactedAt(s, window, now), window, clock)
    ensures CompactedAt(s, window, now).log.Head() == s.log.Head()
  {
    var tl := Evicted(s.timeline, now - window);
    var snap := Snapshot(s.log.Head(), CountsOf(tl), tl);
    CompactedStaysDurable(s.log, snap);
    CompactionInvisible(s.log, snap, s.log.Head());
    if |s.log.entries| >= COMPACT_THRESHOLD {
      CompactDisk(s, window, now);
    }
  }

  /** Replaying entries over a timeline trails the plain concatenation. */
  lemma {:induction false} ReplayTrails(tl: seq<TimedKey>, window: int, es: seq<Entry>, clock: int)
    requires forall i :: 0 <= i < |es| ==> es[i].timestamp <= clock
    ensures Trails(AppliedAll(tl, window, es), tl + Keyed(es), clock - window)
  {
    if es == [] {
      assert tl + [] == tl;
    } else {
      var n := |es| - 1;
      ReplayTrails(tl, window, es[..n], clock);
      var x := TimedKey(es[n].key, es[n].timestamp);
      StepTrails(AppliedAll(tl, window, es[..n]), tl + Keyed(es[..n]), clock - window, es[n].timestamp - window, x);
      assert tl + Keyed(es) == tl + Keyed(es[..n]) + [x];
    }
  }

  /** A restart with distinct ids gives the same log, and a recoverable partition again. */
  lemma RestartRecoverable(s: PartitionState, window: int, clock: int, noIdempotent: bool, now: int)
    requires Recoverable(s, window, clock) && DistinctIds(s.log.entries)
    ensures var r := Started(s.log.disk, window, noIdempotent, now);
            && r.log.base == s.log.base
            && r.log.entries == s.log.entries
            && r.log.disk == s.log.disk
            && Recoverable(r, window, clock)
  {
    var r := Started(s.log.disk, window, noIdempotent, now);
    ReopenExact(s.log, now);
    assert r.log.entries == s.log.entries;
    ReplayTrails(SnapshotTimeline(s.log.disk), window, r.log.entries, clock);
  }

  /** Whatever the ids, the base survives; the head does exactly when they are distinct. */
  lemma RestartedLog(s: PartitionState, window: int, clock: int, noIdempotent: bool, now: int, from: nat)
    requires Recoverable(s, window, clock)
    ensures var r := Started(s.log.disk, window, noIdempotent, now);
            && r.log.base == s.log.base
            && (r.log.Head() == s.log.Head() <==> DistinctIds(s.log.entries))
            && (DistinctIds(s.log.entries) ==> SinceOf(r.log, from) == SinceOf(s.log, from))
  {
    ReopenExact(s.log, now);
  }

  /** Two recoverable partitions with the same disk and log report the same counts from then on. */
  lemma SameCounts(r: PartitionState, s: PartitionState, window: int, clock: int, t: int)
    requires Recoverable(r, window, clock) && Recoverable(s, window, clock)
    requires r.log.entries == s.log.entries && r.log.disk == s.log.disk && t >= clock
    ensures CountsAt(r, window, t) == CountsAt(s, window, t)
  {
    var history := DiskTimeline(s.log);
    assert DiskTimeline(r.log) == history;
    assert Evicted(r.timeline, t - window) == Evicted(history, t - window) by {
      EvictedTrailing(r.timeline, history, clock - window, t - window);
    }
    assert Evicted(s.timeline, t - window) == Evicted(history, t - window) by {
      EvictedTrailing(s.timeline, history, clock - window, t - window);
    }
  }

  lemma {:induction false} CommandRecoverable(s: PartitionState, window: int, clock: int, c: Command)
    requires Recoverable(s, window, clock) && NotAfter(c, clock) && Admissible(s, c)
    ensures Recoverable(AfterCommand(s, window, c), window, clock)
  {
    match c {
      case Write(reqs, now) =>
        WritesRecoverable(s, window, clock, CallsAt(reqs, now));
      case Query(now, later) =>
        EvictRecoverable(s, window, clock, now);
        EvictRecoverable(s.(timeline := Evicted(s.timeline, now - window)), window, clock, later);
      case Compact(now) =>
        CompactRecoverable(s, window, clock, now);
      case Restart(noIdempotent, now) =>
        RestartRecoverable(s, window, clock, noIdempotent, now);
    }
  }

  /** A partition started on an empty disk. */
  function Fresh(window: int, noIdempotent: bool, now: int): PartitionState {
    Started(Some(DiskState([], None)), window, noIdempotent, now)
  }

  lemma {:induction false} RunRecoverable(window: int, noIdempotent: bool, now: int, cs: seq<Command>, clock: int)
    requires AdmissibleRun(Fresh(window, noIdempotent, now), window, cs)
    requires forall i :: 0 <= i < |cs| ==> NotAfter(cs[i], clock)
    ensures Recoverable(AfterCommands(Fresh(window, noIdempotent, now), window, cs), window, clock)
  {
    if cs != [] {
      var n := |cs| - 1;
      RunRecoverable(window, noIdempotent, now, cs[..n], clock);
      CommandRecoverable(AfterCommands(Fresh(window, noIdempotent, now), window, cs[..n]), window, clock, cs[n]);
    }
  }

  lemma AppendKeepsHead(s: LogState, c: Call)
    ensures Appended(s, c).state.Head() >= s.Head()
  {
  }

  lemma {:induction false} WritesKeepHead(s: PartitionState, window: int, calls: seq<Call>)
    ensures AfterApplies(s, window, calls).log.Head() >= s.log.Head()
  {
    if calls != [] {
      var n := |calls| - 1;
      WritesKeepHead(s, window, calls[..n]);
      AppendKeepsHead(AfterApplies(s, window, calls[..n]).log, calls[n]);
    }
  }

  lemma {:induction false} CommandKeepsHead(s: PartitionState, window: int, clock: int, c: Command)
    requires Recoverable(s, window, clock) && NotAfter(c, clock) && Admissible(s, c)
    ensures AfterCommand(s, window, c).log.Head() >= s.log.Head()
  {
    match c {
      case Write(reqs, now) => WritesKeepHead(s, window, CallsAt(reqs, now));
      case Query(_, _) =>
      case Compact(now) => CompactRecoverable(s, window, clock, now);
      case Restart(noIdempotent, now) => RestartRecoverable(s, window, clock, noIdempotent, now);
    }
  }

  /** The head never goes back, over any admissible run with its compactions and restarts. */
  lemma {:induction false} HeadNeverDecreases(window: int, noIdempotent: bool, start: int, cs: seq<Command>,
                                              clock: int, k: nat)
    requires AdmissibleRun(Fresh(window, noIdempotent, start), window, cs) && k <= |cs|
    requires forall i :: 0 <= i < |cs| ==> NotAfter(cs[i], clock)
    ensures var s0 := Fresh(window, noIdempotent, start);
            AfterCommands(s0, window, cs[..k]).log.Head() <= AfterCommands(s0, window, cs).log.Head()
    decreases |cs|
  {
    if k == |cs| {
      assert cs[..k] == cs;
    } else {
      var n := |cs| - 1;
      HeadNeverDecreases(window, noIdempotent, start, cs[..n], clock, k);
      assert cs[..n][..k] == cs[..k];
      RunRecoverable(window, noIdempotent, start, cs[..n], clock);
      CommandKeepsHead(AfterCommands(Fresh(window, noIdempotent, start), window, cs[..n]), window, clock, cs[n]);
    }
  }

  /**
  The main result: after any admissible run of writes, queries, compactions and
  restarts, a restart reproduces base offset, head and log if and only if the
  retained ids are distinct, ...
  */
  lemma {:induction false} RecoveredLogExact(window: int, noIdempotent: bool, start: int, cs: seq<Command>,
                          clock: int, now: int, from: nat)
    requires AdmissibleRun(Fresh(window, noIdempotent, start), window, cs)
    requires forall i :: 0 <= i < |cs| ==> NotAfter(cs[i], clock)
    ensures var s := AfterCommands(Fresh(window, noIdempotent, start), window, cs);
            var r := Started(s.log.disk, window, noIdempotent, now);
            && r.log.base == s.log.base
            && (r.log.Head() == s.log.Head() <==> DistinctIds(s.log.entries))
            && (DistinctIds(s.log.entries) ==> SinceOf(r.log, from) == SinceOf(s.log, from))
  {
    RunRecoverable(window, noIdempotent, start, cs, clock);
    var s := AfterCommands(Fresh(window, noIdempotent, start), window, cs);
    RestartedLog(s, window, clock, noIdempotent, now, from);
  }

  /** ... and then it also reports the same counts at every time t from the clock on. */
  lemma {:induction false} RecoveredCountsExact(window: int, noIdempotent: bool, start: int, cs: seq<Command>,
                             clock: int, now: int, t: int)
    requires AdmissibleRun(Fresh(window, noIdempotent, start), window, cs)
    requires forall i :: 0 <= i < |cs| ==> NotAfter(cs[i], clock)
    requires DistinctIds(AfterCommands(Fresh(window, noIdempotent, start), window, cs).log.entries)
    requires t >= clock
    ensures var s := AfterCommands(Fresh(window, noIdempotent, start), window, cs);
            CountsAt(Started(s.log.disk, window, noIdempotent, now), window, t) == CountsAt(s, window, t)
  {
    RunRecoverable(window, noIdempotent, start, cs, clock);
    RestartedCounts(AfterCommands(Fresh(window, noIdempotent, start), window, cs), window, clock, noIdempotent, now, t);
  }

  // ----- a crash inside a compaction -----

  /** The snapshot is written aside and renamed, then the WAL is truncated; its rest is empty. */
  datatype CrashPoint = BeforeRename | BeforeTruncation | AfterTruncation

  /** The disk that a compaction leaves when the process dies at this point of it. */
  function DiskAtCrash(s: PartitionState, window: int, now: int, point: CrashPoint): Option<DiskState>
    requires s.log.disk.Some?
  {
    match point
    case BeforeRename => s.log.disk
    case BeforeTruncation =>
      var tl := Evicted(s.timeline, now - window);
      Some(DiskState(s.log.disk.value.wal, Some(Snapshot(s.log.Head(), CountsOf(tl), tl))))
    case AfterTruncation => CompactedAt(s, window, now).log.disk
  }

  /** A replay from another base only renumbers the entries. */
  lemma {:induction false} ReplayElsewhere(b: nat, c: nat, wal: seq<Entry>)
    ensures |Replay(b, wal)| == |Replay(c, wal)|
    ensures Ids(Replay(b, wal)) == Ids(Replay(c, wal))
    ensures Keyed(Replay(b, wal)) == Keyed(Replay(c, wal))
    ensures forall i :: 0 <= i < |Replay(b, wal)| ==> Replay(b, wal)[i].timestamp == Replay(c, wal)[i].timestamp
  {
    if wal != [] {
      ReplayElsewhere(b, c, wal[..|wal| - 1]);
    }
  }

  /** Replaying over a timeline that trails a history trails the history with the replayed part at its end. */
  lemma ReplayOverTrailing(tl: seq<TimedKey>, history: seq<TimedKey>, window: int, es: seq<Entry>, clock: int)
    requires Trails(tl, history, clock - window)
    requires forall i :: 0 <= i < |es| ==> es[i].timestamp <= clock
    ensures Trails(AppliedAll(tl, window, es), history + Keyed(es), clock - window)
  {
    ReplayTrails(tl, window, es, clock);
    ExtendTrails(tl, history, Keyed(es), clock - window);
    TrailsTransitive(AppliedAll(tl, window, es), tl + Keyed(es), history + Keyed(es), clock - window);
  }

  lemma {:induction false} ReplayKeepsKeys(l: LogState, base: nat, clock: int)
    requires Durable(l) && DistinctIds(l.entries)
    requires forall i :: 0 <= i < |l.entries| ==> l.entries[i].timestamp <= clock
    ensures var es := Replay(base, l.entries);
            && |es| == |l.entries| && Keyed(es) == Keyed(l.entries)
            && forall i :: 0 <= i < |es| ==> es[i].timestamp <= clock
  {
    ReopenExact(l, 0);
    assert Replay(l.base, l.entries) == l.entries;
    ReplayElsewhere(base, l.base, l.entries);
  }

  lemma {:induction false} CrashBeforeTruncation(s: PartitionState, window: int, clock: int, now: int,
                                                 noIdempotent: bool, later: int)
    requires Recoverable(s, window, clock) && DistinctIds(s.log.entries) && now <= clock
    ensures var r := Started(DiskAtCrash(s, window, now, BeforeTruncation), window, noIdempotent, later);
            && r.log.Head() == s.log.Head() + |s.log.entries|
            && Trails(r.timeline, DiskTimeline(s.log) + Keyed(s.log.entries), clock - window)
  {
    var tl, es := Evicted(s.timeline, now - window), Replay(s.log.Head(), s.log.entries);
    ReplayKeepsKeys(s.log, s.log.Head(), clock);
    EvictionTrails(s.timeline, DiskTimeline(s.log), clock - window, now - window);
    ReplayOverTrailing(tl, DiskTimeline(s.log), window, es, clock);
    assert Started(DiskAtCrash(s, window, now, BeforeTruncation), window, noIdempotent, later).timeline ==
           AppliedAll(tl, window, es);
  }

  lemma {:induction false} CrashAfterTruncation(s: PartitionState, window: int, clock: int, now: int,
                                                noIdempotent: bool, later: int, t: int)
    requires Recoverable(s, window, clock) && now <= clock <= t && s.log.Head() < TWO_TO_THE_64
    requires |s.log.entries| >= COMPACT_THRESHOLD
    ensures var r := Started(DiskAtCrash(s, window, now, AfterTruncation), window, noIdempotent, later);
            r.log.Head() == s.log.Head() && CountsAt(r, window, t) == CountsAt(s, window, t)
  {
    var s' := CompactedAt(s, window, now);
    CompactedToNothing(s, window, now);
    CompactRecoverable(s, window, clock, now);
    RestartedCounts(s', window, clock, noIdempotent, later, t);
    CompactionKeepsCounts(s, window, now, t);
  }

  lemma CompactionKeepsCounts(s: PartitionState, window: int, now: int, t: int)
    requires Durable(s.log) && s.log.Head() < TWO_TO_THE_64 && |s.log.entries| >= COMPACT_THRESHOLD
    requires now <= t
    ensures CountsAt(CompactedAt(s, window, now), window, t) == CountsAt(s, window, t)
  {
    CompactedToNothing(s, window, now);
    EvictedTwice(s.timeline, now - window, t - window);
  }

  lemma {:induction false} CompactedToNothing(s: PartitionState, window: int, now: int)
    requires Durable(s.log) && s.log.Head() < TWO_TO_THE_64 && |s.log.entries| >= COMPACT_THRESHOLD
    ensures var s' := CompactedAt(s, window, now);
            && DistinctIds(s'.log.entries)
            && s'.timeline == Evicted(s.timeline, now - window)
  {
    var tl := Evicted(s.timeline, now - window);
    CompactionInvisible(s.log, Snapshot(s.log.Head(), CountsOf(tl), tl), s.log.Head());
  }

  /** A restart with distinct ids keeps the head and the counts. */
  lemma RestartedCounts(s: PartitionState, window: int, clock: int, noIdempotent: bool, later: int, t: int)
    requires Recoverable(s, window, clock) && DistinctIds(s.log.entries) && t >= clock
    ensures var r := Started(s.log.disk, window, noIdempotent, later);
            r.log.Head() == s.log.Head() && CountsAt(r, window, t) == CountsAt(s, window, t)
  {
    RestartRecoverable(s, window, clock, noIdempotent, later);
    SameCounts(Started(s.log.disk, window, noIdempotent, later), s, window, clock, t);
  }

  lemma {:induction false} EvictedTwice(tl: seq<TimedKey>, sooner: int, later: int)
    requires sooner <= later
    ensures Evicted(Evicted(tl, sooner), later) == Evicted(tl, later)
  {
    EvictionTrails(tl, tl, later, sooner);
    EvictedTrailing(Evicted(tl, sooner), tl, later, later);
  }

  /**
  A process that dies inside a compaction recovers the log and the counts if and only if
  it does not die between the rename of the snapshot and the truncation of the WAL.
  There, the next start applies every retained entry a second time and moves the head
  by as many.
  */
  lemma {:induction false} CompactionCrashExact(s: PartitionState, window: int, clock: int, now: int, point: CrashPoint,
                             noIdempotent: bool, later: int, t: int)
    requires Recoverable(s, window, clock) && DistinctIds(s.log.entries)
    requires now <= clock <= t && s.log.Head() < TWO_TO_THE_64 && |s.log.entries| >= COMPACT_THRESHOLD
    ensures var r := Started(DiskAtCrash(s, window, now, point), window, noIdempotent, later);
            && (r.log.Head() == s.log.Head() <==> point != BeforeTruncation)
            && (point != BeforeTruncation ==> CountsAt(r, window, t) == CountsAt(s, window, t))
            && (point == BeforeTruncation ==>
                  && r.log.Head() == s.log.Head() + |s.log.entries|
                  && Trails(r.timeline, DiskTimeline(s.log) + Keyed(s.log.entries), clock - window))
  {
    match point {
      case BeforeRename =>
        RestartedCounts(s, window, clock, noIdempotent, later, t);
      case BeforeTruncation =>
        CrashBeforeTruncation(s, window, clock, now, noIdempotent, later);
      case AfterTruncation =>
        CrashAfterTruncation(s, window, clock, now, noIdempotent, later, t);
    }
  }

  // ----- queries and compactions, seen from outside -----

  /**
  A query is only a chance to evict: it drops everything in front that has left the window
  by then, and no count reported at or after its times changes.
  */
  lemma QueryUnobservable(s: PartitionState, window: int, now: int, later: int, t: int)
    requires now <= later <= t
    ensures CountsAt(Queried(s, window, now, later), window, t) == CountsAt(s, window, t)
    ensures var tl := Queried(s, window, now, later).timeline;
            tl == [] || tl[0].at >= later - window
    ensures Queried(s, window, now, later).log == s.log
  {
    EvictedTwice(s.timeline, now - window, t - window);
    EvictedTwice(Evicted(s.timeline, now - window), later - window, t - window);
    EvictedFront(Evicted(s.timeline, now - window), later - window);
  }

  lemma {:induction false} EvictedFront(tl: seq<TimedKey>, cutoff: int)
    ensures Evicted(tl, cutoff) == [] || Evicted(tl, cutoff)[0].at >= cutoff
  {
    if tl != [] && tl[0].at < cutoff {
      EvictedFront(tl[1..], cutoff);
    }
  }

  /** The log never stays long: 10000 entries or more all move into the snapshot, fewer stay as they are. */
  lemma CompactionBoundsLog(s: PartitionState, window: int, now: int)
    requires Durable(s.log) && s.log.Head() < TWO_TO_THE_64
    ensures var s' := CompactedAt(s, window, now);
            if |s.log.entries| < 10000 then s' == s
            else s'.log.entries == [] && s'.log.base == s.log.Head()
  {
    if |s.log.entries| >= 10000 {
      var tl := Evicted(s.timeline, now - window);
      CompactionInvisible(s.log, Snapshot(s.log.Head(), CountsOf(tl), tl), s.log.Head());
    }
  }

  // ----- every accepted write is counted once -----

  /** The keys and times of the accepted writes of a run of appends. */
  function Accepted(s: LogState, calls: seq<Call>): seq<TimedKey> {
    if calls == [] then []
    else
      var n := |calls| - 1;
      var before := Accepted(s, calls[..n]);
      if ResultOf(s, calls, n).accepted then before + [TimedKey(calls[n].req.key, calls[n].now)] else before
  }

  function AcceptedBy(s: PartitionState, c: Command): seq<TimedKey> {
    if c.Write? then Accepted(s.log, CallsAt(c.reqs, c.now)) else []
  }

  /** The accepted writes of a run of commands, across compactions and restarts. */
  function AllAccepted(s: PartitionState, window: int, cs: seq<Command>): seq<TimedKey> {
    if cs == [] then []
    else
      var before := cs[..|cs| - 1];
      AllAccepted(s, window, before) + AcceptedBy(AfterCommands(s, window, before), cs[|cs| - 1])
  }

  ghost predicate InOrder(cs: seq<Command>) {
    forall i, j :: 0 <= i < j < |cs| ==> cs[i].now <= cs[j].now
  }

  lemma OneWriteOnDisk(s: LogState, c: Call)
    requires s.disk.Some?
    ensures var r := Appended(s, c);
            && r.state.disk.Some?
            && r.state.disk.value.snapshot == s.disk.value.snapshot
            && Keyed(r.state.entries) ==
               Keyed(s.entries) + (if r.accepted then [TimedKey(c.req.key, c.now)] else [])
  {
    var r := Appended(s, c);
    if r.accepted {
      assert r.state.entries[..|s.entries|] == s.entries;
    }
  }

  /** Writes leave the snapshot alone and extend the retained log by what they accept. */
  lemma {:induction false} WritesOnDisk(s: LogState, calls: seq<Call>)
    requires s.disk.Some?
    ensures var s' := AfterAppends(s, calls);
            && s'.disk.Some?
            && s'.disk.value.snapshot == s.disk.value.snapshot
            && Keyed(s'.entries) == Keyed(s.entries) + Accepted(s, calls)
  {
    if calls != [] {
      var n := |calls| - 1;
      WritesOnDisk(s, calls[..n]);
      OneWriteOnDisk(AfterAppends(s, calls[..n]), calls[n]);
    }
  }

  lemma {:induction false} AcceptedTimes(s: LogState, calls: seq<Call>, now: int)
    requires forall i :: 0 <= i < |calls| ==> calls[i].now == now
    ensures forall i :: 0 <= i < |Accepted(s, calls)| ==> Accepted(s, calls)[i].at == now
  {
    if calls != [] {
      AcceptedTimes(s, calls[..|calls| - 1], now);
    }
  }

  lemma {:induction false} AllAcceptedChronological(s: PartitionState, window: int, cs: seq<Command>)
    requires InOrder(cs)
    ensures Chronological(AllAccepted(s, window, cs))
    ensures forall i :: 0 <= i < |AllAccepted(s, window, cs)| ==>
              cs != [] && AllAccepted(s, window, cs)[i].at <= cs[|cs| - 1].now
  {
    if cs != [] {
      var n := |cs| - 1;
      AllAcceptedChronological(s, window, cs[..n]);
      if cs[n].Write? {
        AcceptedTimes(AfterCommands(s, window, cs[..n]).log, CallsAt(cs[n].reqs, cs[n].now), cs[n].now);
      }
    }
  }

  lemma {:induction false} TrailsTransitive(a: seq<TimedKey>, b: seq<TimedKey>, c: seq<TimedKey>, cutoff: int)
    requires Trails(a, b, cutoff) && Trails(b, c, cutoff)
    ensures Trails(a, c, cutoff)
    decreases |c|
  {
    if b != c {
      TrailsTransitive(a, b, c[1..], cutoff);
    }
  }

  lemma {:induction false} ExtendTrails(a: seq<TimedKey>, b: seq<TimedKey>, more: seq<TimedKey>, cutoff: int)
    requires Trails(a, b, cutoff)
    ensures Trails(a + more, b + more, cutoff)
    decreases |b|
  {
    if a != b {
      ExtendTrails(a, b[1..], more, cutoff);
      assert (b + more)[1..] == b[1..] + more;
    }
  }

  lemma {:induction false} WriteOnDisk(l: LogState, calls: seq<Call>, accepted: seq<TimedKey>, cutoff: int)
    requires l.disk.Some? && Trails(DiskTimeline(l), accepted, cutoff)
    ensures Trails(DiskTimeline(AfterAppends(l, calls)), accepted + Accepted(l, calls), cutoff)
  {
    WritesOnDisk(l, calls);
    assert DiskTimeline(AfterAppends(l, calls)) == DiskTimeline(l) + Accepted(l, calls);
    ExtendTrails(DiskTimeline(l), accepted, Accepted(l, calls), cutoff);
  }

  lemma CompactOnDisk(s: PartitionState, window: int, clock: int, now: int, accepted: seq<TimedKey>)
    requires Recoverable(s, window, clock) && now <= clock && s.log.Head() < TWO_TO_THE_64
    requires Trails(DiskTimeline(s.log), accepted, clock - window)
    ensures Trails(DiskTimeline(CompactedAt(s, window, now).log), accepted, clock - window)
  {
    if |s.log.entries| >= COMPACT_THRESHOLD {
      CompactDisk(s, window, now);
      EvictionTrails(s.timeline, DiskTimeline(s.log), clock - window, now - window);
      TrailsTransitive(Evicted(s.timeline, now - window), DiskTimeline(s.log), accepted, clock - window);
    }
  }

  /** The disk forgets only accepted writes that have left every window from now on. */
  lemma {:induction false} CommandOnDisk(s: PartitionState, window: int, clock: int, c: Command,
                                         accepted: seq<TimedKey>)
    requires Recoverable(s, window, clock) && NotAfter(c, clock) && Admissible(s, c)
    requires Trails(DiskTimeline(s.log), accepted, clock - window)
    ensures Trails(DiskTimeline(AfterCommand(s, window, c).log), accepted + AcceptedBy(s, c), clock - window)
  {
    assert !c.Write? ==> accepted + AcceptedBy(s, c) == accepted;
    match c {
      case Write(reqs, now) =>
        LogOfApplies(s, window, CallsAt(reqs, now));
        WriteOnDisk(s.log, CallsAt(reqs, now), accepted, clock - window);
      case Query(now, later) =>
        assert DiskTimeline(Queried(s, window, now, later).log) == DiskTimeline(s.log);
      case Compact(now) =>
        CompactOnDisk(s, window, clock, now, accepted);
      case Restart(noIdempotent, now) =>
        RestartRecoverable(s, window, clock, noIdempotent, now);
        assert DiskTimeline(Started(s.log.disk, window, noIdempotent, now).log) == DiskTimeline(s.log);
    }
  }

  lemma {:induction false} DiskTrailsAccepted(window: int, noIdempotent: bool, start: int, cs: seq<Command>,
                                              clock: int)
    requires AdmissibleRun(Fresh(window, noIdempotent, start), window, cs)
    requires forall i :: 0 <= i < |cs| ==> NotAfter(cs[i], clock)
    ensures var s := AfterCommands(Fresh(window, noIdempotent, start), window, cs);
            Trails(DiskTimeline(s.log), AllAccepted(Fresh(window, noIdempotent, start), window, cs), clock - window)
  {
    if cs != [] {
      var n := |cs| - 1;
      DiskTrailsAccepted(window, noIdempotent, start, cs[..n], clock);
      RunRecoverable(window, noIdempotent, start, cs[..n], clock);
      var s0 := Fresh(window, noIdempotent, start);
      CommandOnDisk(AfterCommands(s0, window, cs[..n]), window, clock, cs[n], AllAccepted(s0, window, cs[..n]));
    }
  }

  /**
  End to end: the counts reported at a time t that no command is past never miss a write
  accepted since the disk was empty that lies in the window, whatever compactions and
  restarts came in between; and they count every key exactly if and only if no accepted
  write that has left the window came after one that is still in it.
  */
  lemma {:induction false} AcceptedWritesCounted(window: int, noIdempotent: bool, start: int, cs: seq<Command>,
                                                 t: int)
    requires AdmissibleRun(Fresh(window, noIdempotent, start), window, cs)
    requires forall i :: 0 <= i < |cs| ==> NotAfter(cs[i], t)
    ensures var s := AfterCommands(Fresh(window, noIdempotent, start), window, cs);
            var accepted := AllAccepted(Fresh(window, noIdempotent, start), window, cs);
            && (CountsWindow(CountsAt(s, window, t), accepted, t - window) <==> !Buried(accepted, t - window))
            && NothingMissed(CountsAt(s, window, t), accepted, t - window)
  {
    var s0 := Fresh(window, noIdempotent, start);
    var s, accepted := AfterCommands(s0, window, cs), AllAccepted(s0, window, cs);
    assert Trails(s.timeline, accepted, t - window) by {
      RunRecoverable(window, noIdempotent, start, cs, t);
      DiskTrailsAccepted(window, noIdempotent, start, cs, t);
      TrailsTransitive(s.timeline, DiskTimeline(s.log), accepted, t - window);
    }
    TrailingCountsExact(s.timeline, accepted, t - window);
  }

  /** With a clock that does not run back every accepted write in the window is counted exactly once. */
  lemma {:induction false} AcceptedWritesCountedInOrder(window: int, noIdempotent: bool, start: int,
                                                        cs: seq<Command>, t: int)
    requires AdmissibleRun(Fresh(window, noIdempotent, start), window, cs) && InOrder(cs)
    requires forall i :: 0 <= i < |cs| ==> NotAfter(cs[i], t)
    ensures var s := AfterCommands(Fresh(window, noIdempotent, start), window, cs);
            var accepted := AllAccepted(Fresh(window, noIdempotent, start), window, cs);
            CountsWindow(CountsAt(s, window, t), accepted, t - window)
  {
    AcceptedWritesCounted(window, noIdempotent, start, cs, t);
    AllAcceptedChronological(Fresh(window, noIdempotent, start), window, cs);
    ChronologicalNotBuried(AllAccepted(Fresh(window, noIdempotent, start), window, cs), t - window);
  }
}
