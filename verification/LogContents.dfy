/**
What the log stores: which calls it takes and what it keeps of each of them, read off the
calls themselves, up to what readers, a restart and a batch get of it.
*/
module LogContents {
  import opened Wrappers
  import opened Dedup
  import opened EventLog
  import opened LogProperties
  import opened Partition

  /** The positions of the accepted calls of a run. */
  function AcceptedAt(s: LogState, calls: seq<Call>): (at: seq<nat>)
    ensures forall k :: 0 <= k < |at| ==> at[k] < |calls|
  {
    if calls == [] then []
    else
      var n := |calls| - 1;
      AcceptedAt(s, calls[..n]) + (if ResultOf(s, calls, n).accepted then [n] else [])
  }

  lemma {:induction false} AcceptedAtExact(s: LogState, calls: seq<Call>)
    ensures var at := AcceptedAt(s, calls);
            && (forall i :: i in at <==> 0 <= i < |calls| && ResultOf(s, calls, i).accepted)
            && (forall k, m :: 0 <= k < m < |at| ==> at[k] < at[m])
  {
    if calls != [] {
      var n := |calls| - 1;
      AcceptedAtExact(s, calls[..n]);
      forall i | 0 <= i < n ensures ResultOf(s, calls[..n], i) == ResultOf(s, calls, i) {
        assert calls[..n][..i] == calls[..i];
      }
    }
  }

  /** The k-th entry has the next offset and the id, key, value and time of the k-th accepted call. */
  ghost predicate Records(es: seq<Entry>, base: nat, calls: seq<Call>, at: seq<nat>) {
    && |es| == |at|
    && forall k :: 0 <= k < |at| ==>
         && at[k] < |calls|
         && es[k].offset == base + k
         && es[k].id == calls[at[k]].req.id
         && es[k].key == calls[at[k]].req.key
         && es[k].value == calls[at[k]].req.value
         && es[k].timestamp == calls[at[k]].now
  }

  lemma RecordsOneMore(es: seq<Entry>, base: nat, calls: seq<Call>, at: seq<nat>, e: Entry)
    requires calls != [] && Records(es, base, calls[..|calls| - 1], at)
    ensures Records(es, base, calls, at)
    ensures var c := calls[|calls| - 1];
            e == Entry(base + |es|, c.req.id, c.req.key, c.req.value, c.now) ==>
              Records(es + [e], base, calls, at + [|calls| - 1])
  {
  }

  /**
  Over every run of appends the log grows by exactly the accepted calls, in order, each
  with its id, key, value and time and the next offset; so does the WAL.
  */
  lemma {:induction false} AppendsRecord(s: LogState, calls: seq<Call>)
    ensures var s', n := AfterAppends(s, calls), |s.entries|;
            && s'.base == s.base && n <= |s'.entries| && s'.entries[..n] == s.entries
            && Records(s'.entries[n..], s.Head(), calls, AcceptedAt(s, calls))
            && (s.disk.None? ==> s'.disk.None?)
            && (s.disk.Some? ==>
                  && s'.disk.Some?
                  && s'.disk.value.wal == s.disk.value.wal + s'.entries[n..])
  {
    if calls != [] {
      var n := |calls| - 1;
      AppendsRecord(s, calls[..n]);
      var before, after := AfterAppends(s, calls[..n]), AfterAppends(s, calls);
      RecordsOneMore(before.entries[|s.entries|..], s.Head(), calls, AcceptedAt(s, calls[..n]),
                     Entry(before.Head(), calls[n].req.id, calls[n].req.key, calls[n].req.value, calls[n].now));
      if ResultOf(s, calls, n).accepted {
        assert after.entries[|s.entries|..] ==
               before.entries[|s.entries|..] +
               [Entry(before.Head(), calls[n].req.id, calls[n].req.key, calls[n].req.value, calls[n].now)];
      }
    } else {
      assert s.entries[|s.entries|..] == [];
      if s.disk.Some? {
        assert s.disk.value.wal + [] == s.disk.value.wal;
      }
    }
  }

  /** An accepted caller is told its own entry; a refused one gets the entry with nothing in it. */
  lemma {:induction false} RepliesRecord(s: LogState, calls: seq<Call>, i: nat)
    requires i < |calls|
    ensures var r, c := ResultOf(s, calls, i), calls[i];
            if r.accepted then
              r.entry == Entry(s.Head() + |AcceptedAt(s, calls[..i])|, c.req.id, c.req.key, c.req.value, c.now)
            else r.entry == Entry(0, "", "", [], ZERO_TIME)
  {
    AppendsRecord(s, calls[..i]);
  }

  /** Readers from the old head on get the accepted calls from that offset on. */
  lemma {:induction false} SinceRecords(s: LogState, calls: seq<Call>, from: nat)
    requires from >= s.Head()
    ensures var at := AcceptedAt(s, calls);
            Records(SinceOf(AfterAppends(s, calls), from), from, calls,
                    if from - s.Head() < |at| then at[from - s.Head()..] else [])
  {
    AppendsRecord(s, calls);
    var s', at := AfterAppends(s, calls), AcceptedAt(s, calls);
    var k := from - s.Head();
    if k < |at| {
      assert SinceOf(s', from) == s'.entries[|s.entries|..][k..];
    }
  }

  /** A restart of a log that was new gives the accepted calls back, if their ids are distinct. */
  lemma {:induction false} RestartRecords(calls: seq<Call>, now: int, from: nat)
    requires DistinctIds(AfterAppends(EMPTY_LOG, calls).entries)
    ensures var at := AcceptedAt(EMPTY_LOG, calls);
            Records(SinceOf(Reopened(AfterAppends(EMPTY_LOG, calls).disk, now), from), from, calls,
                    if from < |at| then at[from..] else [])
  {
    var s := AfterAppends(EMPTY_LOG, calls);
    AppendsStayDurable(EMPTY_LOG, calls);
    ReopenExact(s, now);
    SinceRecords(EMPTY_LOG, calls, from);
    assert SinceOf(Reopened(s.disk, now), from) == SinceOf(s, from);
  }

  /** Right after a restart an id is remembered exactly if its first record is within the TTL. */
  lemma {:induction false} ReopenedTableExact(d: DiskState, now: int, id: string)
    ensures var at := Reopened(Some(d), now).at;
            && (id in at <==> exists i :: FirstWith(d.wal, i, id) && Unix(d.wal[i].timestamp) > Cutoff(now))
            && forall i :: id in at && FirstWith(d.wal, i, id) ==> at[id] == Unix(d.wal[i].timestamp)
  {
    ReplayedTableExact(SnapshotBase(d), d.wal, id);
    forall i, j | FirstWith(d.wal, i, id) && FirstWith(d.wal, j, id) ensures i == j {
      FirstWithUnique(d.wal, i, j, id);
    }
    if i :| FirstWith(d.wal, i, id) {
      IdsExact(d.wal, id);
    }
  }

  /** A batch stores its accepted elements, in order, all with the time of the batch. */
  lemma {:induction false} BatchRecords(s: LogState, ids: seq<string>, keys: seq<string>, values: seq<seq<byte>>,
                                        now: int)
    requires |keys| == |ids| == |values|
    ensures var calls := BatchCalls(ids, keys, values, now);
            var at, added := AcceptedAt(s, calls), AfterAppends(s, calls).entries;
            && |added| == |s.entries| + |at|
            && forall k :: 0 <= k < |at| ==>
                 added[|s.entries| + k] == Entry(s.Head() + k, ids[at[k]], keys[at[k]], values[at[k]], now)
  {
    AppendsRecord(s, BatchCalls(ids, keys, values, now));
  }

  /** So does a partition with the writes it serves in one turn. */
  lemma {:induction false} ServedRecords(s: PartitionState, window: int, reqs: seq<Request>, now: int)
    ensures var at, added := AcceptedAt(s.log, CallsAt(reqs, now)),
                             AfterApplies(s, window, CallsAt(reqs, now)).log.entries;
            && |added| == |s.log.entries| + |at|
            && forall k :: 0 <= k < |at| ==>
                 added[|s.log.entries| + k] ==
                 Entry(s.log.Head() + k, reqs[at[k]].id, reqs[at[k]].key, reqs[at[k]].value, now)
  {
    LogOfApplies(s, window, CallsAt(reqs, now));
    AppendsRecord(s.log, CallsAt(reqs, now));
  }

  // ----- without idempotence -----

  /** Without idempotence every call is taken, whatever its id. */
  lemma {:induction false} NonIdempotentTakesAll(s: LogState, calls: seq<Call>)
    requires s.noIdempotent
    ensures AcceptedAt(s, calls) == seq(|calls|, i => i)
  {
    if calls != [] {
      NonIdempotentTakesAll(s, calls[..|calls| - 1]);
      StaysIdempotent(s, calls[..|calls| - 1]);
    }
  }

  /** ... and no id is ever forgotten: each keeps the second of its first call. */
  lemma {:induction false} NonIdempotentForgetsNothing(s: LogState, calls: seq<Call>, i: nat)
    requires s.noIdempotent && i < |calls|
    ensures var at, id := AfterAppends(s, calls).at, calls[i].req.id;
            && id in at
            && (id in s.at ==> at[id] == s.at[id])
            && (id !in s.at && (forall j :: 0 <= j < i ==> calls[j].req.id != id) ==> at[id] == Unix(calls[i].now))
  {
    var n := |calls| - 1;
    StaysIdempotent(s, calls[..n]);
    if i < n {
      NonIdempotentForgetsNothing(s, calls[..n], i);
    } else {
      TableOfRun(s, calls[..n], calls[i].req.id);
    }
  }

  lemma {:induction false} TableOfRun(s: LogState, calls: seq<Call>, id: string)
    requires s.noIdempotent
    ensures var at := AfterAppends(s, calls).at;
            && (id in s.at ==> id in at && at[id] == s.at[id])
            && (id !in s.at && id in at ==> exists j :: 0 <= j < |calls| && calls[j].req.id == id)
  {
    if calls != [] {
      var n := |calls| - 1;
      StaysIdempotent(s, calls[..n]);
      TableOfRun(s, calls[..n], id);
      if j :| 0 <= j < n && calls[..n][j].req.id == id {
        assert calls[j].req.id == id;
      }
    }
  }

  /** The mode of a partition is the one it is started with, and it does not change. */
  lemma {:induction false} StartedMode(disk: Option<DiskState>, window: int, noIdempotent: bool, now: int,
                                       calls: seq<Call>)
    ensures var s := Started(disk, window, noIdempotent, now);
            && AfterApplies(s, window, calls).log.noIdempotent == noIdempotent
            && (noIdempotent ==> AcceptedAt(s.log, calls) == seq(|calls|, i => i))
  {
    var s := Started(disk, window, noIdempotent, now);
    LogOfApplies(s, window, calls);
    StaysIdempotent(s.log, calls);
    if noIdempotent {
      NonIdempotentTakesAll(s.log, calls);
    }
  }
}
