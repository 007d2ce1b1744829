/**
The append-only log of one node with its write-ahead log (internal/log/log.go).

The disk is an object of its own, so that it outlives the `Log` that writes it.
`LogState` is the whole state as a value; every method of the class is tied to a
function on `LogState`, and the properties of whole runs are proved about those
functions in `LogProperties`.
*/
module EventLog {
  import opened Wrappers
  import opened Dedup

  /** Nanoseconds of Go's zero `time.Time`, 1 January of year 1. */
  const ZERO_TIME := -62_135_596_800 * SECOND

  datatype Entry = Entry(offset: nat, id: string, key: string, value: seq<byte>, timestamp: int)

  const ZERO_ENTRY := Entry(0, "", "", [], ZERO_TIME)

  /** One element of an aggregate's timeline, in memory and in a snapshot. */
  datatype TimedKey = TimedKey(key: string, at: int)

  datatype Snapshot = Snapshot(baseOffset: nat, counts: map<string, nat>, timeline: seq<TimedKey>)

  datatype DiskState = DiskState(wal: seq<Entry>, snapshot: Option<Snapshot>)

  datatype LogState = LogState(
    base: nat,
    entries: seq<Entry>,
    at: map<string, int>,
    noIdempotent: bool,
    disk: Option<DiskState>)
  {
    function Head(): nat {
      base + |entries|
    }
  }

  datatype Request = Request(id: string, key: string, value: seq<byte>)

  datatype Call = Call(req: Request, now: int)

  datatype AppendResult = AppendResult(state: LogState, entry: Entry, accepted: bool)

  /** `Append`: refuse a known id, else give the entry the next offset. */
  function Appended(s: LogState, c: Call): AppendResult {
    var at := if s.noIdempotent then s.at else Unexpired(s.at, Unix(c.now - DEDUP_TTL));
    if !s.noIdempotent && c.req.id in at then
      AppendResult(s.(at := at), ZERO_ENTRY, false)
    else
      var e := Entry(s.Head(), c.req.id, c.req.key, c.req.value, c.now);
      AppendResult(
        s.(entries := s.entries + [e],
           at := Recorded(at, e.id, c.now),
           disk := if s.disk.None? then None else Some(s.disk.value.(wal := s.disk.value.wal + [e]))),
        e, true)
  }

  /** The state after a run of appends. */
  function AfterAppends(s: LogState, calls: seq<Call>): LogState {
    if calls == [] then s
    else Appended(AfterAppends(s, calls[..|calls| - 1]), calls[|calls| - 1]).state
  }

  /** The result of the i-th append of a run. */
  function ResultOf(s: LogState, calls: seq<Call>, i: nat): AppendResult
    requires i < |calls|
  {
    Appended(AfterAppends(s, calls[..i]), calls[i])
  }

  /** What the i-th caller of a run is told. */
  ghost predicate Replied(s: LogState, calls: seq<Call>, i: nat, e: Entry, accepted: bool)
    requires i < |calls|
  {
    e == ResultOf(s, calls, i).entry && accepted == ResultOf(s, calls, i).accepted
  }

  /** What the callers of a run have been told so far, one by one. */
  ghost predicate RepliedAll(s: LogState, calls: seq<Call>, out: seq<Entry>, accepted: seq<bool>) {
    && |out| == |accepted| <= |calls|
    && forall i :: 0 <= i < |out| ==> Replied(s, calls, i, out[i], accepted[i])
  }

  lemma {:induction false} ReplyOneMore(s: LogState, calls: seq<Call>, out: seq<Entry>, accepted: seq<bool>,
                                        e: Entry, ok: bool)
    requires RepliedAll(s, calls, out, accepted) && |out| < |calls|
    requires Replied(s, calls, |out|, e, ok)
    ensures RepliedAll(s, calls, out + [e], accepted + [ok])
  {
  }

  lemma {:induction false} AfterOneMore(s: LogState, calls: seq<Call>, i: nat)
    requires i < |calls|
    ensures AfterAppends(s, calls[..i + 1]) == ResultOf(s, calls, i).state
  {
    assert calls[..i + 1][..i] == calls[..i];
  }

  /** The calls a batch stands for: its elements in order, all at one time. */
  function BatchCalls(ids: seq<string>, keys: seq<string>, values: seq<seq<byte>>, now: int): seq<Call>
    requires |keys| == |ids| == |values|
  {
    seq(|ids|, i requires 0 <= i < |ids| => Call(Request(ids[i], keys[i], values[i]), now))
  }

  /** A state whose last WAL records are still in the write buffer of a batch. */
  function Buffered(s: LogState, buf: seq<Entry>): LogState {
    s.(disk := if s.disk.None? then None else Some(s.disk.value.(wal := s.disk.value.wal + buf)))
  }

  /** The ids of a sequence of entries. */
  function Ids(es: seq<Entry>): set<string> {
    if es == [] then {} else Ids(es[..|es| - 1]) + {es[|es| - 1].id}
  }

  /** What start-up makes of the WAL: first occurrences only, offsets recomputed. */
  function Replay(base: nat, wal: seq<Entry>): seq<Entry> {
    if wal == [] then []
    else
      var before := Replay(base, wal[..|wal| - 1]);
      var e := wal[|wal| - 1];
      if e.id in Ids(before) then before else before + [e.(offset := base + |before|)]
  }

  /** The dedup table that start-up collects from the replayed entries. */
  function ReplayedTable(es: seq<Entry>): map<string, int> {
    if es == [] then map[]
    else Recorded(ReplayedTable(es[..|es| - 1]), es[|es| - 1].id, es[|es| - 1].timestamp)
  }

  function SnapshotBase(d: DiskState): nat {
    if d.snapshot.None? then 0 else d.snapshot.value.baseOffset
  }

  /** `Open`: everything is rebuilt from the disk. */
  function Reopened(disk: Option<DiskState>, now: int): LogState {
    match disk
    case None => LogState(0, [], map[], false, None)
    case Some(d) =>
      var entries := Replay(SnapshotBase(d), d.wal);
      LogState(SnapshotBase(d), entries,
               Unexpired(ReplayedTable(entries), Unix(now - DEDUP_TTL)), false, disk)
  }

  /** How many entries a compaction drops; the subtraction is on `uint64`. */
  function Dropped(s: LogState, baseOffset: nat): nat
    ensures Dropped(s, baseOffset) <= |s.entries|
  {
    var keep := (baseOffset - s.base) % TWO_TO_THE_64;
    if keep > |s.entries| then |s.entries| else keep
  }

  /** `Compact`: store the snapshot, drop what it covers, rewrite the WAL. */
  function Compacted(s: LogState, snap: Snapshot): LogState {
    if s.disk.None? then s
    else
      var rest := s.entries[Dropped(s, snap.baseOffset)..];
      s.(base := snap.baseOffset, entries := rest, disk := Some(DiskState(rest, Some(snap))))
  }

  /** The entries a reader of offset `from` gets. */
  function SinceOf(s: LogState, from: nat): seq<Entry> {
    var idx := if from < s.base then 0 else from - s.base;
    if idx >= |s.entries| then [] else s.entries[idx..]
  }

  /** Offsets run without gap or repetition from the base offset. */
  ghost predicate Contiguous(s: LogState) {
    forall i :: 0 <= i < |s.entries| ==> s.entries[i].offset == s.base + i
  }

  class Disk {
    var wal: seq<Entry>
    var snapshot: Option<Snapshot>

    ghost function State(): DiskState
      reads this
    {
      DiskState(wal, snapshot)
    }

    constructor ()
      ensures State() == DiskState([], None)
    {
      wal := [];
      snapshot := None;
    }
  }

  class Log {
    var entries: seq<Entry>
    var baseOffset: nat
    var noIdempotent: bool
    const dedup: DedupSet
    const disk: Disk?

    ghost predicate Valid()
      reads this, dedup
    {
      dedup.Valid() && dedup.ttl == DEDUP_TTL
    }

    ghost function State(): LogState
      reads this, dedup, disk
    {
      LogState(baseOffset, entries, dedup.at, noIdempotent,
               if disk == null then None else Some(disk.State()))
    }

    /** `Open`; a null disk stands for the empty data directory of `New`. */
    constructor (disk: Disk?, now: int)
      ensures Valid() && fresh(dedup) && this.disk == disk
      ensures State() == Reopened(if disk == null then None else Some(disk.State()), now)
    {
      this.disk := disk;
      this.dedup := new DedupSet(DEDUP_TTL);
      entries, noIdempotent := [], false;
      baseOffset := if disk != null && disk.snapshot.Some? then disk.snapshot.value.baseOffset else 0;
      new;
      if disk != null {
        ReplayWal(disk.wal);
        dedup.Evict(now);
        assert baseOffset == SnapshotBase(disk.State());
      }
    }

    /** The start-up loop over the records of the WAL. */
    method ReplayWal(records: seq<Entry>)
      requires Valid() && entries == [] && dedup.at == map[]
      modifies this`entries, dedup
      ensures Valid()
      ensures entries == Replay(baseOffset, records)
      ensures dedup.at == ReplayedTable(entries)
    {
      var replayed: set<string> := {};
      for i := 0 to |records|
        invariant Valid()
        invariant entries == Replay(baseOffset, records[..i])
        invariant replayed == Ids(entries)
        invariant dedup.at == ReplayedTable(entries)
      {
        var e := records[i];
        assert records[..i + 1][..i] == records[..i];
        if e.id !in replayed {
          var stored := e.(offset := baseOffset + |entries|);
          dedup.Add(e.id, e.timestamp);
          entries := entries + [stored];
          replayed := replayed + {e.id};
        }
      }
      assert records[..|records|] == records;
    }

    method SetNoIdempotent(v: bool)
      modifies this`noIdempotent
      ensures noIdempotent == v
    {
      noIdempotent := v;
    }

    method Append(id: string, key: string, value: seq<byte>, now: int) returns (e: Entry, accepted: bool)
      requires Valid()
      modifies this, dedup, disk
      ensures Valid()
      ensures AppendResult(State(), e, accepted) == Appended(old(State()), Call(Request(id, key, value), now))
    {
      if !noIdempotent {
        var seen := dedup.Seen(id, now);
        if seen {
          return ZERO_ENTRY, false;
        }
      }
      e := Entry(baseOffset + |entries|, id, key, value, now);
      entries := entries + [e];
      dedup.Add(id, now);
      if disk != null {
        disk.wal := disk.wal + [e];
      }
      accepted := true;
    }

    /** One element of a batch: its WAL record goes to the write buffer. */
    method Stage(id: string, key: string, value: seq<byte>, now: int, buf: seq<Entry>)
      returns (e: Entry, accepted: bool, newBuf: seq<Entry>)
      requires Valid()
      modifies this`entries, dedup
      ensures Valid()
      ensures AppendResult(Buffered(State(), newBuf), e, accepted) ==
              Appended(Buffered(old(State()), buf), Call(Request(id, key, value), now))
    {
      newBuf := buf;
      if !noIdempotent {
        var seen := dedup.Seen(id, now);
        if seen {
          return ZERO_ENTRY, false, buf;
        }
      }
      e := Entry(baseOffset + |entries|, id, key, value, now);
      entries := entries + [e];
      dedup.Add(id, now);
      if disk != null {
        newBuf := buf + [e];
        assert disk.wal + newBuf == disk.wal + buf + [e];
      }
      accepted := true;
    }

    method StageNext(id: string, key: string, value: seq<byte>, now: int, buf: seq<Entry>,
                     ghost start: LogState, ghost calls: seq<Call>, ghost i: nat)
      returns (e: Entry, accepted: bool, newBuf: seq<Entry>)
      requires Valid() && i < |calls| && calls[i] == Call(Request(id, key, value), now)
      requires Buffered(State(), buf) == AfterAppends(start, calls[..i])
      modifies this`entries, dedup
      ensures Valid()
      ensures Buffered(State(), newBuf) == AfterAppends(start, calls[..i + 1])
      ensures Replied(start, calls, i, e, accepted)
    {
      AfterOneMore(start, calls, i);
      e, accepted, newBuf := Stage(id, key, value, now, buf);
    }

    /** The loop over the elements of a batch. */
    method StageAll(ids: seq<string>, keys: seq<string>, values: seq<seq<byte>>, now: int)
      returns (out: seq<Entry>, accepted: seq<bool>, buf: seq<Entry>)
      requires Valid() && |keys| == |ids| == |values|
      modifies this`entries, dedup
      ensures Valid()
      ensures Buffered(State(), buf) == AfterAppends(old(State()), BatchCalls(ids, keys, values, now))
      ensures |out| == |ids| && RepliedAll(old(State()), BatchCalls(ids, keys, values, now), out, accepted)
    {
      ghost var calls := BatchCalls(ids, keys, values, now);
      ghost var start := State();
      out, accepted, buf := [], [], [];
      assert disk != null ==> disk.wal + buf == disk.wal;
      for i := 0 to |ids|
        invariant Valid()
        invariant Buffered(State(), buf) == AfterAppends(start, calls[..i])
        invariant |out| == i && RepliedAll(start, calls, out, accepted)
      {
        var e, ok, more := StageNext(ids[i], keys[i], values[i], now, buf, start, calls, i);
        ReplyOneMore(start, calls, out, accepted, e, ok);
        buf, out, accepted := more, out + [e], accepted + [ok];
      }
      assert calls[..|ids|] == calls;
    }

    /** One lock and one WAL write for the whole batch. */
    method AppendBatch(ids: seq<string>, keys: seq<string>, values: seq<seq<byte>>, now: int)
      returns (out: seq<Entry>, accepted: seq<bool>)
      requires Valid() && |keys| == |ids| == |values|
      modifies this, dedup, disk
      ensures Valid()
      ensures State() == AfterAppends(old(State()), BatchCalls(ids, keys, values, now))
      ensures |out| == |ids| && RepliedAll(old(State()), BatchCalls(ids, keys, values, now), out, accepted)
    {
      var buf;
      out, accepted, buf := StageAll(ids, keys, values, now);
      assert disk != null && buf == [] ==> disk.wal + buf == disk.wal;
      if disk != null && |buf| > 0 {
        disk.wal := disk.wal + buf;
      }
    }

    method Since(offset: nat) returns (tail: seq<Entry>)
      ensures tail == SinceOf(State(), offset)
    {
      var from := if offset < baseOffset then baseOffset else offset;
      var idx := from - baseOffset;
      if idx >= |entries| {
        return [];
      }
      tail := entries[idx..];
    }

    method Head() returns (h: nat)
      ensures h == State().Head()
    {
      h := baseOffset + |entries|;
    }

    method Compact(snap: Snapshot)
      modifies this`entries, this`baseOffset, disk
      ensures State() == Compacted(old(State()), snap)
    {
      if disk == null {
        return;
      }
      disk.snapshot := Some(snap);
      var keep := (snap.baseOffset - baseOffset) % TWO_TO_THE_64;
      if keep > |entries| {
        keep := |entries|;
      }
      entries := entries[keep..];
      baseOffset := snap.baseOffset;
      disk.wal := [];
      var rest := entries;
      for i := 0 to |rest|
        invariant disk.wal == rest[..i] && disk.snapshot == Some(snap)
        invariant entries == rest && baseOffset == snap.baseOffset
      {
        disk.wal := disk.wal + [rest[i]];
      }
      assert rest[..|rest|] == rest;
    }
  }
}
