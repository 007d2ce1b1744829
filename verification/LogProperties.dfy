/**
What the log promises over whole runs: exact deduplication, contiguous offsets,
compaction that readers past it cannot notice, and recovery from the WAL.
*/
module LogProperties {
  import opened Wrappers
  import opened Dedup
  import opened EventLog

  // ----- deduplication -----

  ghost predicate Nondecreasing(calls: seq<Call>) {
    forall i, j :: 0 <= i < j < |calls| ==> calls[i].now <= calls[j].now
  }

  /** Seconds up to and including this one have expired at time `now`. */
  function Cutoff(now: int): int {
    Unix(now - DEDUP_TTL)
  }

  ghost predicate Expired(calls: seq<Call>, second: int) {
    calls != [] && second <= Cutoff(calls[|calls| - 1].now)
  }

  /** The i-th call was for `id` and was accepted. */
  ghost predicate AcceptedAs(s: LogState, calls: seq<Call>, i: int, id: string) {
    0 <= i < |calls| && calls[i].req.id == id && ResultOf(s, calls, i).accepted
  }

  /** Every second in the table comes from the start or from an accepted call. */
  ghost predicate TableJustified(s: LogState, calls: seq<Call>) {
    var at := AfterAppends(s, calls).at;
    forall id :: id in at && !(id in s.at && at[id] == s.at[id]) ==>
      exists j :: AcceptedAs(s, calls, j, id) && at[id] == Unix(calls[j].now)
  }

  /** What was in the table at the start, or was accepted since, is in it or has expired. */
  ghost predicate TableKeeps(s: LogState, calls: seq<Call>) {
    var at := AfterAppends(s, calls).at;
    && (forall id :: id in s.at ==> StillThere(at, calls, id, s.at[id]))
    && (forall j, id :: AcceptedAs(s, calls, j, id) ==> StillThere(at, calls, id, Unix(calls[j].now)))
  }

  /** The id is in the table with this second, or the second has expired at the last call. */
  ghost predicate StillThere(at: map<string, int>, calls: seq<Call>, id: string, second: int) {
    Expired(calls, second) || (id in at && at[id] == second)
  }

  lemma PrefixAccepts(s: LogState, calls: seq<Call>, n: nat, j: nat, id: string)
    requires 0 <= j < n <= |calls|
    ensures AcceptedAs(s, calls[..n], j, id) == AcceptedAs(s, calls, j, id)
  {
    assert calls[..n][..j] == calls[..j];
  }

  lemma {:induction false} StaysIdempotent(s: LogState, calls: seq<Call>)
    ensures AfterAppends(s, calls).noIdempotent == s.noIdempotent
  {
    if calls != [] {
      StaysIdempotent(s, calls[..|calls| - 1]);
    }
  }

  lemma {:induction false} TableStaysJustified(s: LogState, calls: seq<Call>)
    ensures TableJustified(s, calls)
  {
    if calls != [] {
      var n := |calls| - 1;
      var before := calls[..n];
      TableStaysJustified(s, before);
      var t0, t := AfterAppends(s, before).at, AfterAppends(s, calls).at;
      forall id | id in t && !(id in s.at && t[id] == s.at[id])
        ensures exists j :: AcceptedAs(s, calls, j, id) && t[id] == Unix(calls[j].now)
      {
        if id in t0 && t[id] == t0[id] {
          var j :| AcceptedAs(s, before, j, id) && t0[id] == Unix(before[j].now);
          PrefixAccepts(s, calls, n, j, id);
          assert AcceptedAs(s, calls, j, id);
        } else {
          assert AcceptedAs(s, calls, n, id);
        }
      }
    }
  }

  /** An append forgets only what has expired at its time. */
  lemma {:induction false} KeptByAppend(s: LogState, c: Call, id: string)
    requires id in s.at && s.at[id] > Cutoff(c.now)
    ensures id in Appended(s, c).state.at && Appended(s, c).state.at[id] == s.at[id]
  {
  }

  lemma {:induction false} StillThereAfter(s: LogState, calls: seq<Call>, id: string, second: int)
    requires calls != [] && Nondecreasing(calls)
    requires StillThere(s.at, calls[..|calls| - 1], id, second)
    ensures StillThere(Appended(s, calls[|calls| - 1]).state.at, calls, id, second)
  {
    var n := |calls| - 1;
    assert n > 0 ==> Cutoff(calls[n - 1].now) <= Cutoff(calls[n].now);
    if second > Cutoff(calls[n].now) {
      KeptByAppend(s, calls[n], id);
    }
  }

  lemma {:induction false} TableStaysKept(s: LogState, calls: seq<Call>)
    requires !s.noIdempotent && Nondecreasing(calls)
    ensures TableKeeps(s, calls)
  {
    if calls != [] {
      var n := |calls| - 1;
      var before, at := AfterAppends(s, calls[..n]), AfterAppends(s, calls).at;
      NondecreasingPrefix(calls, n);
      TableStaysKept(s, calls[..n]);
      StaysIdempotent(s, calls[..n]);
      forall id | id in s.at ensures StillThere(at, calls, id, s.at[id]) {
        StillThereAfter(before, calls, id, s.at[id]);
      }
      forall j, id | AcceptedAs(s, calls, j, id) ensures StillThere(at, calls, id, Unix(calls[j].now)) {
        if j < n {
          PrefixAccepts(s, calls, n, j, id);
          StillThereAfter(before, calls, id, Unix(calls[j].now));
        }
      }
    }
  }

  lemma NondecreasingPrefix(calls: seq<Call>, n: nat)
    requires Nondecreasing(calls) && n <= |calls|
    ensures Nondecreasing(calls[..n])
  {
  }

  /**
  Deduplication is exact: a call is accepted if and only if neither the table the
  process started with nor any earlier accepted call for the same id is less than
  the TTL old.
  */
  lemma {:induction false} DedupExact(s: LogState, calls: seq<Call>, n: nat)
    requires !s.noIdempotent && Nondecreasing(calls) && n < |calls|
    ensures var id, cutoff := calls[n].req.id, Cutoff(calls[n].now);
            ResultOf(s, calls, n).accepted <==>
              && (id in s.at ==> s.at[id] <= cutoff)
              && forall j :: j < n && AcceptedAs(s, calls, j, id) ==> Unix(calls[j].now) <= cutoff
  {
    if ResultOf(s, calls, n).accepted {
      AcceptedIsNew(s, calls, n);
    } else {
      RefusedIsRecent(s, calls, n);
    }
  }

  lemma {:induction false} AcceptedIsNew(s: LogState, calls: seq<Call>, n: nat)
    requires !s.noIdempotent && Nondecreasing(calls) && n < |calls|
    requires ResultOf(s, calls, n).accepted
    ensures var id, cutoff := calls[n].req.id, Cutoff(calls[n].now);
            && (id in s.at ==> s.at[id] <= cutoff)
            && forall j :: j < n && AcceptedAs(s, calls, j, id) ==> Unix(calls[j].now) <= cutoff
  {
    NondecreasingPrefix(calls, n);
    TableStaysKept(s, calls[..n]);
    StaysIdempotent(s, calls[..n]);
    assert n > 0 ==> Cutoff(calls[n - 1].now) <= Cutoff(calls[n].now);
    forall j | j < n && AcceptedAs(s, calls, j, calls[n].req.id)
      ensures AcceptedAs(s, calls[..n], j, calls[n].req.id)
    {
      PrefixAccepts(s, calls, n, j, calls[n].req.id);
    }
  }

  lemma {:induction false} RefusedIsRecent(s: LogState, calls: seq<Call>, n: nat)
    requires n < |calls| && !ResultOf(s, calls, n).accepted
    ensures var id, cutoff := calls[n].req.id, Cutoff(calls[n].now);
            || (id in s.at && s.at[id] > cutoff)
            || exists j :: j < n && AcceptedAs(s, calls, j, id) && Unix(calls[j].now) > cutoff
  {
    var id, before := calls[n].req.id, calls[..n];
    TableStaysJustified(s, before);
    var at := AfterAppends(s, before).at;
    assert id in at && at[id] > Cutoff(calls[n].now);
    if !(id in s.at && at[id] == s.at[id]) {
      var j :| AcceptedAs(s, before, j, id) && at[id] == Unix(before[j].now);
      PrefixAccepts(s, calls, n, j, id);
      assert AcceptedAs(s, calls, j, id);
    }
  }

  /** Two accepted calls with one id are at least 300 whole seconds apart. */
  lemma DedupWindow(s: LogState, calls: seq<Call>, i: nat, n: nat, id: string)
    requires !s.noIdempotent && Nondecreasing(calls) && i < n
    requires AcceptedAs(s, calls, i, id) && AcceptedAs(s, calls, n, id)
    ensures Unix(calls[n].now) - Unix(calls[i].now) >= 300
  {
    DedupExact(s, calls, n);
  }

  /**
  The window in nanoseconds: because whole seconds are compared, an id is refused for more
  than 299 seconds after it was accepted and never for longer than 300.
  */
  lemma {:induction false} DedupWindowNanos(s: LogState, calls: seq<Call>, n: nat)
    requires !s.noIdempotent && Nondecreasing(calls) && n < |calls| && calls[n].req.id !in s.at
    ensures ResultOf(s, calls, n).accepted ==>
              forall j :: j < n && AcceptedAs(s, calls, j, calls[n].req.id) ==>
                calls[n].now - calls[j].now > 299_000_000_000
    ensures (forall j :: j < n && AcceptedAs(s, calls, j, calls[n].req.id) ==>
               calls[n].now - calls[j].now >= 300_000_000_000) ==> ResultOf(s, calls, n).accepted
    ensures ResultOf(s, calls, n).accepted <==>
              forall j :: j < n && AcceptedAs(s, calls, j, calls[n].req.id) ==>
                calls[j].now / 1_000_000_000 <= (calls[n].now - 300_000_000_000) / 1_000_000_000
  {
    DedupExact(s, calls, n);
    forall j | j < n && AcceptedAs(s, calls, j, calls[n].req.id)
      ensures Unix(calls[j].now) <= Cutoff(calls[n].now) ==> calls[n].now - calls[j].now > 299_000_000_000
      ensures calls[n].now - calls[j].now >= 300_000_000_000 ==> Unix(calls[j].now) <= Cutoff(calls[n].now)
    {
      SecondsApart(calls[j].now, calls[n].now);
    }
  }

  lemma SecondsApart(earlier: int, later: int)
    ensures Unix(earlier) <= Cutoff(later) ==> later - earlier > 299_000_000_000
    ensures later - earlier >= 300_000_000_000 ==> Unix(earlier) <= Cutoff(later)
    ensures Unix(earlier) <= Cutoff(later) <==> earlier / 1_000_000_000 <= (later - 300_000_000_000) / 1_000_000_000
  {
  }

  /** The buckets are determined by the id table. */
  lemma BucketsDetermined(b1: map<int, set<string>>, b2: map<int, set<string>>, at: map<string, int>)
    requires Inverse(b1, at) && Inverse(b2, at)
    ensures b1 == b2
  {
    forall b | b in b1 ensures b in b2 {
      var id := Witness(b1[b]);
      assert id in at && at[id] == b;
    }
    forall b | b in b2 ensures b in b1 {
      var id := Witness(b2[b]);
      assert id in at && at[id] == b;
    }
    forall b | b in b1 ensures b1[b] == b2[b] {
      assert forall id :: id in b1[b] <==> id in at && at[id] == b;
    }
  }

  lemma {:induction false} SizeOfRange(s: set<int>, lo: int, hi: int)
    requires lo <= hi && forall x :: x in s ==> lo < x <= hi
    ensures |s| <= hi - lo
    decreases hi - lo
  {
    if lo < hi {
      SizeOfRange(s - {hi}, lo, hi - 1);
    } else {
      forall x ensures x !in s {}
      assert s == {};
    }
  }

  /**
  After an eviction at `now` of a set that holds nothing from the future, at most
  one bucket per second of the TTL remains.
  */
  lemma BoundedBuckets(buckets: map<int, set<string>>, at: map<string, int>, now: int)
    requires Inverse(buckets, at) && at == Unexpired(at, Cutoff(now))
    requires forall id :: id in at ==> at[id] <= Unix(now)
    ensures |buckets| <= 300
  {
    forall b | b in buckets ensures Cutoff(now) < b <= Unix(now) {
      var id := Witness(buckets[b]);
      assert id in at && at[id] == b;
    }
    SizeOfRange(buckets.Keys, Cutoff(now), Unix(now));
  }

  /** After an append at `now` every second in the table is less than the TTL old. */
  lemma {:induction false} AppendForgetsExpired(s: LogState, c: Call)
    requires !s.noIdempotent
    ensures forall id :: id in Appended(s, c).state.at ==> Appended(s, c).state.at[id] > Cutoff(c.now)
  {
  }

  /** Over a run, no second in the table is past the time of the last call. */
  lemma {:induction false} NothingFromTheFuture(s: LogState, calls: seq<Call>)
    requires calls != [] && Nondecreasing(calls)
    requires forall id :: id in s.at ==> s.at[id] <= Unix(calls[|calls| - 1].now)
    ensures forall id :: id in AfterAppends(s, calls).at ==>
              AfterAppends(s, calls).at[id] <= Unix(calls[|calls| - 1].now)
  {
    TableStaysJustified(s, calls);
    var at := AfterAppends(s, calls).at;
    forall id | id in at ensures at[id] <= Unix(calls[|calls| - 1].now) {
      if !(id in s.at && at[id] == s.at[id]) {
        var j :| AcceptedAs(s, calls, j, id) && at[id] == Unix(calls[j].now);
      }
    }
  }

  /**
  However many ids come in: after every run of appends with a clock that does not run
  back, the dedup set has at most one bucket per second of the TTL.
  */
  lemma {:induction false} BucketsStayBounded(s: LogState, calls: seq<Call>, buckets: map<int, set<string>>)
    requires !s.noIdempotent && calls != [] && Nondecreasing(calls)
    requires forall id :: id in s.at ==> s.at[id] <= Unix(calls[0].now)
    requires Inverse(buckets, AfterAppends(s, calls).at)
    ensures |buckets| <= 300
  {
    var last := |calls| - 1;
    var at := AfterAppends(s, calls).at;
    assert Unix(calls[0].now) <= Unix(calls[last].now);
    NothingFromTheFuture(s, calls);
    StaysIdempotent(s, calls[..last]);
    AppendForgetsExpired(AfterAppends(s, calls[..last]), calls[last]);
    assert at == Unexpired(at, Cutoff(calls[last].now));
    BoundedBuckets(buckets, at, calls[last].now);
  }

  // ----- offsets -----

  /** The entries the callers of a run were given, in order. */
  function AcceptedEntries(s: LogState, calls: seq<Call>): seq<Entry> {
    if calls == [] then []
    else
      var n := |calls| - 1;
      var r := ResultOf(s, calls, n);
      AcceptedEntries(s, calls[..n]) + (if r.accepted then [r.entry] else [])
  }

  /** Appending extends the log by exactly the accepted entries, without gaps, and leaves the base alone. */
  lemma {:induction false} AppendsExtend(s: LogState, calls: seq<Call>)
    requires Contiguous(s)
    ensures var s' := AfterAppends(s, calls);
            Contiguous(s') && s'.base == s.base && s'.entries == s.entries + AcceptedEntries(s, calls)
  {
    if calls != [] {
      AppendsExtend(s, calls[..|calls| - 1]);
    }
  }

  /** `Since` is exactly the retained entries at or past the offset, in order. */
  lemma SinceExact(s: LogState, from: nat)
    requires Contiguous(s)
    ensures var tail := SinceOf(s, from);
            && |tail| <= |s.entries|
            && tail == s.entries[|s.entries| - |tail|..]
            && forall i :: 0 <= i < |s.entries| ==>
                 (s.entries[i].offset >= from <==> i >= |s.entries| - |tail|)
  {
  }

  /**
  A compaction keeps the head exactly when its point lies between the base offset
  and the head; the unsigned subtraction turns any other point into a different head.
  */
  lemma CompactionKeepsHead(s: LogState, snap: Snapshot)
    requires s.disk.Some? && s.Head() < TWO_TO_THE_64 && snap.baseOffset < TWO_TO_THE_64
    ensures Compacted(s, snap).Head() == s.Head() <==> s.base <= snap.baseOffset <= s.Head()
  {
    if snap.baseOffset < s.base {
      assert (snap.baseOffset - s.base) % TWO_TO_THE_64 == snap.baseOffset - s.base + TWO_TO_THE_64;
    }
  }

  /** Readers at or past the compaction point see the same entries with the same offsets. */
  lemma CompactionInvisible(s: LogState, snap: Snapshot, from: nat)
    requires Contiguous(s) && s.disk.Some?
    requires s.base <= snap.baseOffset <= s.Head() < TWO_TO_THE_64
    ensures var s' := Compacted(s, snap);
            && Contiguous(s')
            && s'.entries == SinceOf(s, snap.baseOffset)
            && (from >= snap.baseOffset ==> SinceOf(s', from) == SinceOf(s, from))
  {
    assert Dropped(s, snap.baseOffset) == snap.baseOffset - s.base;
  }

  // ----- recovery of the log -----

  ghost predicate DistinctIds(es: seq<Entry>) {
    forall i, j :: 0 <= i < j < |es| ==> es[i].id != es[j].id
  }

  /** Memory and disk agree, as they do between any two commands. */
  ghost predicate Durable(s: LogState) {
    && Contiguous(s)
    && s.disk.Some?
    && s.disk.value.wal == s.entries
    && SnapshotBase(s.disk.value) == s.base
  }

  lemma {:induction false} AppendsStayDurable(s: LogState, calls: seq<Call>)
    requires Durable(s)
    ensures Durable(AfterAppends(s, calls))
    ensures AfterAppends(s, calls).disk.value.snapshot == s.disk.value.snapshot
  {
    if calls != [] {
      AppendsStayDurable(s, calls[..|calls| - 1]);
    }
  }

  lemma CompactedStaysDurable(s: LogState, snap: Snapshot)
    requires Durable(s) && s.base <= snap.baseOffset <= s.Head() < TWO_TO_THE_64
    ensures Durable(Compacted(s, snap))
  {
    CompactionInvisible(s, snap, snap.baseOffset);
  }

  lemma {:induction false} IdsExact(es: seq<Entry>, id: string)
    ensures id in Ids(es) <==> exists i :: 0 <= i < |es| && es[i].id == id
  {
    if es != [] {
      var n := |es| - 1;
      IdsExact(es[..n], id);
      if i :| 0 <= i < n && es[i].id == id {
        assert es[..n][i].id == id;
      }
    }
  }

  /** Distinctness, read from the back the way the replay loop meets the records. */
  lemma DistinctFromBack(es: seq<Entry>)
    requires es != []
    ensures DistinctIds(es) <==>
              DistinctIds(es[..|es| - 1]) && es[|es| - 1].id !in Ids(es[..|es| - 1])
  {
    var n := |es| - 1;
    IdsExact(es[..n], es[n].id);
    if DistinctIds(es[..n]) && es[n].id !in Ids(es[..n]) {
      forall i, j | 0 <= i < j < |es| ensures es[i].id != es[j].id {
        assert es[i] == es[..n][i];
        if j < n {
          assert es[j] == es[..n][j];
        }
      }
    }
  }

  lemma {:induction false} IdsSnoc(es: seq<Entry>, e: Entry)
    ensures Ids(es + [e]) == Ids(es) + {e.id}
  {
    assert (es + [e])[..|es|] == es;
  }

  lemma {:induction false} ReplayKeepsIds(base: nat, wal: seq<Entry>)
    ensures Ids(Replay(base, wal)) == Ids(wal)
    ensures |Replay(base, wal)| <= |wal|
  {
    if wal != [] {
      var kept := Replay(base, wal[..|wal| - 1]);
      ReplayKeepsIds(base, wal[..|wal| - 1]);
      IdsSnoc(kept, wal[|wal| - 1].(offset := base + |kept|));
    }
  }

  /** Replaying keeps a WAL with distinct ids ... */
  lemma {:induction false} ReplayKeepsDistinct(base: nat, wal: seq<Entry>)
    requires forall i :: 0 <= i < |wal| ==> wal[i].offset == base + i
    requires DistinctIds(wal)
    ensures Replay(base, wal) == wal
  {
    if wal != [] {
      var n := |wal| - 1;
      DistinctFromBack(wal);
      ReplayKeepsDistinct(base, wal[..n]);
      assert wal == wal[..n] + [wal[n]];
    }
  }

  /** ... and shortens any other. */
  lemma {:induction false} ReplayDropsRepeats(base: nat, wal: seq<Entry>)
    requires !DistinctIds(wal)
    ensures |Replay(base, wal)| < |wal|
  {
    var n := |wal| - 1;
    DistinctFromBack(wal);
    ReplayKeepsIds(base, wal[..n]);
    if !DistinctIds(wal[..n]) {
      ReplayDropsRepeats(base, wal[..n]);
    }
  }

  /**
  Reopening gives back the log if and only if the retained ids are distinct;
  otherwise the head moves back.
  */
  lemma ReopenExact(s: LogState, now: int)
    requires Durable(s)
    ensures var r := Reopened(s.disk, now);
            && r.base == s.base
            && (DistinctIds(s.entries) ==> Durable(r) && r.entries == s.entries)
            && r.Head() <= s.Head()
            && (r.Head() == s.Head() <==> DistinctIds(s.entries))
  {
    if DistinctIds(s.entries) {
      ReplayKeepsDistinct(s.base, s.entries);
    } else {
      ReplayDropsRepeats(s.base, s.entries);
    }
  }

  /** The i-th entry is the first with this id. */
  ghost predicate FirstWith(es: seq<Entry>, i: int, id: string) {
    0 <= i < |es| && es[i].id == id && id !in Ids(es[..i])
  }

  lemma FirstWithPrefix(es: seq<Entry>, n: nat, i: int, id: string)
    requires n <= |es| && i < n
    ensures FirstWith(es[..n], i, id) == FirstWith(es, i, id)
  {
    if 0 <= i {
      assert es[..n][..i] == es[..i];
    }
  }

  lemma {:induction false} IdInPrefix(es: seq<Entry>, i: nat, n: nat)
    requires i < n <= |es|
    ensures es[i].id in Ids(es[..n])
  {
    IdsExact(es[..n], es[i].id);
    assert es[..n][i] == es[i];
  }

  lemma FirstWithUnique(es: seq<Entry>, i: int, j: int, id: string)
    requires FirstWith(es, i, id) && FirstWith(es, j, id)
    ensures i == j
  {
    if i < j {
      IdInPrefix(es, i, j);
    } else if j < i {
      IdInPrefix(es, j, i);
    }
  }

  /** The table collected at start-up holds exactly the ids of the WAL, each with the second of its first record. */
  lemma {:induction false} ReplayedTableExact(base: nat, wal: seq<Entry>, id: string)
    ensures var at := ReplayedTable(Replay(base, wal));
            && (id in at <==> id in Ids(wal))
            && (id in at ==> exists i :: FirstWith(wal, i, id) && at[id] == Unix(wal[i].timestamp))
  {
    if wal != [] {
      var n := |wal| - 1;
      var kept, e := Replay(base, wal[..n]), wal[n];
      ReplayedTableExact(base, wal[..n], id);
      ReplayedTableExact(base, wal[..n], e.id);
      ReplayKeepsIds(base, wal[..n]);
      if e.id !in Ids(wal[..n]) {
        var stored := e.(offset := base + |kept|);
        assert (kept + [stored])[..|kept|] == kept;
        assert ReplayedTable(kept + [stored]) == Recorded(ReplayedTable(kept), e.id, e.timestamp);
      }
      if id in Ids(wal[..n]) {
        var i :| FirstWith(wal[..n], i, id) && ReplayedTable(kept)[id] == Unix(wal[..n][i].timestamp);
        FirstWithPrefix(wal, n, i, id);
      } else if id == e.id {
        assert FirstWith(wal, n, id);
      }
    }
  }

  /** After a restart an id is refused exactly if the first retained entry with it is within the TTL. */
  lemma {:induction false} ReopenRemembers(s: LogState, now: int, c: Call)
    requires Durable(s) && now <= c.now
    ensures !Appended(Reopened(s.disk, now), c).accepted <==>
              exists i :: FirstWith(s.entries, i, c.req.id) && Unix(s.entries[i].timestamp) > Cutoff(c.now)
  {
    var at, id := ReplayedTable(Replay(s.base, s.entries)), c.req.id;
    ReplayedTableExact(s.base, s.entries, id);
    assert Cutoff(now) <= Cutoff(c.now);
    assert !Appended(Reopened(s.disk, now), c).accepted <==> id in at && at[id] > Cutoff(c.now);
    if i :| FirstWith(s.entries, i, id) {
      IdsExact(s.entries, id);
      forall j | FirstWith(s.entries, j, id) ensures i == j {
        FirstWithUnique(s.entries, i, j, id);
      }
    }
  }

  /** A retained entry with this id is within the TTL at time `now`. */
  ghost predicate RetainedLive(es: seq<Entry>, id: string, now: int) {
    exists i :: 0 <= i < |es| && es[i].id == id && Unix(es[i].timestamp) > Cutoff(now)
  }

  /** With distinct ids there is nothing but first entries. */
  lemma {:induction false} ReopenRemembersDistinct(s: LogState, now: int, c: Call)
    requires Durable(s) && DistinctIds(s.entries) && now <= c.now
    ensures !Appended(Reopened(s.disk, now), c).accepted <==> RetainedLive(s.entries, c.req.id, c.now)
  {
    ReopenRemembers(s, now, c);
    forall i | 0 <= i < |s.entries| && s.entries[i].id == c.req.id ensures FirstWith(s.entries, i, c.req.id) {
      IdsExact(s.entries[..i], c.req.id);
    }
  }

  /** A log without compactions remembers what it retains and has not expired at its clock, and nothing else. */
  ghost predicate Remembers(s: LogState, clock: int) {
    && !s.noIdempotent
    && (forall id :: id in s.at ==> exists i :: 0 <= i < |s.entries| && s.entries[i].id == id
                                                 && s.at[id] == Unix(s.entries[i].timestamp))
    && (forall i :: 0 <= i < |s.entries| && Unix(s.entries[i].timestamp) > Cutoff(clock) ==>
          s.entries[i].id in s.at && s.at[s.entries[i].id] == Unix(s.entries[i].timestamp))
  }

  lemma {:induction false} AppendRemembers(s: LogState, clock: int, c: Call)
    requires Remembers(s, clock) && clock <= c.now
    ensures Remembers(Appended(s, c).state, c.now)
    ensures !Appended(s, c).accepted <==> RetainedLive(s.entries, c.req.id, c.now)
  {
    assert Cutoff(clock) <= Cutoff(c.now);
    var s' := Appended(s, c).state;
    forall id | id in s'.at
      ensures exists i :: 0 <= i < |s'.entries| && s'.entries[i].id == id
                          && s'.at[id] == Unix(s'.entries[i].timestamp)
    {
      if id in s.at && s'.at[id] == s.at[id] {
        var i :| 0 <= i < |s.entries| && s.entries[i].id == id && s.at[id] == Unix(s.entries[i].timestamp);
        assert s'.entries[i] == s.entries[i];
      } else {
        assert s'.entries[|s.entries|].id == id;
      }
    }
  }

  lemma {:induction false} AppendsRemember(s: LogState, calls: seq<Call>, clock: int)
    requires Remembers(s, if calls == [] then clock else calls[0].now)
    requires Nondecreasing(calls) && (calls != [] ==> calls[|calls| - 1].now <= clock)
    ensures Remembers(AfterAppends(s, calls), clock)
  {
    if calls != [] {
      var n := |calls| - 1;
      NondecreasingPrefix(calls, n);
      AppendsRemember(s, calls[..n], calls[n].now);
      AppendRemembers(AfterAppends(s, calls[..n]), calls[n].now, calls[n]);
      RemembersLater(AfterAppends(s, calls), calls[n].now, clock);
    }
  }

  lemma RemembersLater(s: LogState, clock: int, later: int)
    requires Remembers(s, clock) && clock <= later
    ensures Remembers(s, later)
  {
    assert Cutoff(clock) <= Cutoff(later);
  }

  /** A new log on an empty disk. */
  const EMPTY_LOG := LogState(0, [], map[], false, Some(DiskState([], None)))

  /**
  After any run of appends to a new log, a restart changes the answer to the next call if
  and only if its id is retained within the TTL, but its first retained entry is older.
  */
  lemma {:induction false} RestartVerdictExact(calls: seq<Call>, now: int, c: Call)
    requires Nondecreasing(calls) && (calls != [] ==> calls[|calls| - 1].now <= c.now) && now <= c.now
    ensures var s := AfterAppends(EMPTY_LOG, calls);
            && (!Appended(s, c).accepted <==> RetainedLive(s.entries, c.req.id, c.now))
            && (Appended(Reopened(s.disk, now), c).accepted != Appended(s, c).accepted <==>
                  && RetainedLive(s.entries, c.req.id, c.now)
                  && exists i :: FirstWith(s.entries, i, c.req.id)
                                 && Unix(s.entries[i].timestamp) <= Cutoff(c.now))
  {
    var s := AfterAppends(EMPTY_LOG, calls);
    AppendsStayDurable(EMPTY_LOG, calls);
    AppendsRemember(EMPTY_LOG, calls, c.now);
    AppendRemembers(s, c.now, c);
    ReopenRemembers(s, now, c);
    FirstOfLive(s.entries, c.req.id, c.now);
  }

  lemma {:induction false} FirstExists(es: seq<Entry>, id: string)
    ensures id in Ids(es) ==> exists i :: FirstWith(es, i, id)
  {
    if es != [] {
      var n := |es| - 1;
      FirstExists(es[..n], id);
      if id in Ids(es[..n]) {
        var i :| FirstWith(es[..n], i, id);
        FirstWithPrefix(es, n, i, id);
      } else if es[n].id == id {
        assert FirstWith(es, n, id);
      }
    }
  }

  /** There is one first entry of a retained id, and if it is within the TTL the id is. */
  lemma FirstOfLive(es: seq<Entry>, id: string, now: int)
    ensures RetainedLive(es, id, now) ==> exists i :: FirstWith(es, i, id)
    ensures forall i, j :: FirstWith(es, i, id) && FirstWith(es, j, id) ==> i == j
    ensures forall i :: FirstWith(es, i, id) && Unix(es[i].timestamp) > Cutoff(now) ==> RetainedLive(es, id, now)
  {
    if RetainedLive(es, id, now) {
      IdsExact(es, id);
      FirstExists(es, id);
    }
    forall i, j | FirstWith(es, i, id) && FirstWith(es, j, id) ensures i == j {
      FirstWithUnique(es, i, j, id);
    }
  }

  /** Two appends of one id, the second when the first has just expired. */
  function Reaccepted(): seq<Call> {
    [Call(Request("a", "k", []), 0), Call(Request("a", "k", []), DEDUP_TTL)]
  }

  lemma ReacceptedLog()
    ensures var s := AfterAppends(EMPTY_LOG, Reaccepted());
            && Durable(s)
            && s.entries == [Entry(0, "a", "k", [], 0), Entry(1, "a", "k", [], DEDUP_TTL)]
  {
    var c1, c2 := Reaccepted()[0], Reaccepted()[1];
    assert [c1, c2][..1] == [c1] && [c1][..0] == [];
    var s1 := Appended(EMPTY_LOG, c1).state;
    assert AfterAppends(EMPTY_LOG, [c1]) == s1 by {
      assert AfterAppends(EMPTY_LOG, [c1][..0]) == EMPTY_LOG;
    }
    assert "a" !in Unexpired(s1.at, Cutoff(DEDUP_TTL));
    assert AfterAppends(EMPTY_LOG, [c1, c2]) == Appended(s1, c2).state;
    AppendsStayDurable(EMPTY_LOG, [c1, c2]);
  }

  /**
  The distinctness is not automatic: an id that comes back after the TTL is
  accepted a second time, and a restart then loses that entry.
  */
  lemma {:induction false} ReopenLosesReacceptedId()
    ensures var s := AfterAppends(EMPTY_LOG, Reaccepted());
            Durable(s) && s.Head() == 2 && Reopened(s.disk, DEDUP_TTL).Head() < 2
  {
    ReacceptedLog();
    var s := AfterAppends(EMPTY_LOG, Reaccepted());
    assert s.entries[0].id == s.entries[1].id;
    ReopenExact(s, DEDUP_TTL);
  }

  /** ... and forgets that the id was accepted a second ago. */
  lemma {:induction false} ReopenForgetsReacceptedId()
    ensures var s, again := AfterAppends(EMPTY_LOG, Reaccepted()), Call(Request("a", "k", []), DEDUP_TTL + SECOND);
            !Appended(s, again).accepted && Appended(Reopened(s.disk, DEDUP_TTL), again).accepted
  {
    ReacceptedLog();
    var s, again := AfterAppends(EMPTY_LOG, Reaccepted()), Call(Request("a", "k", []), DEDUP_TTL + SECOND);
    assert FirstWith(s.entries, 0, "a");
    assert s.entries[1].id == "a" && Unix(s.entries[1].timestamp) > Cutoff(again.now);
    RestartVerdictExact(Reaccepted(), DEDUP_TTL, again);
  }
}
