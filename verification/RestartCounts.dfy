/**
What a restart does to the counts when an id stands more than once in the WAL: the
repeated entries are forgotten, and the counts tell until an eviction has passed them.
*/
module RestartCounts {
  import opened Wrappers
  import opened EventLog
  import opened LogProperties
  import opened Aggregate
  import opened AggregateProperties
  import opened Partition
  import opened Recovery

  /** The entries whose id has come before. */
  function Repeats(es: seq<Entry>): seq<Entry> {
    if es == [] then []
    else
      var before, e := es[..|es| - 1], es[|es| - 1];
      Repeats(before) + (if e.id in Ids(before) then [e] else [])
  }

  lemma {:induction false} WindowCountAppend(a: seq<TimedKey>, b: seq<TimedKey>, k: string, cutoff: int)
    ensures WindowCount(a + b, k, cutoff) == WindowCount(a, k, cutoff) + WindowCount(b, k, cutoff)
  {
    if a == [] {
      assert a + b == b;
    } else {
      assert (a + b)[1..] == a[1..] + b;
      WindowCountAppend(a[1..], b, k, cutoff);
    }
  }

  lemma {:induction false} KeyedSnoc(es: seq<Entry>, e: Entry, k: string, cutoff: int)
    ensures WindowCount(Keyed(es + [e]), k, cutoff) ==
            WindowCount(Keyed(es), k, cutoff) + (if e.key == k && e.timestamp >= cutoff then 1 else 0)
  {
    assert (es + [e])[..|es|] == es;
    WindowCountAppend(Keyed(es), [TimedKey(e.key, e.timestamp)], k, cutoff);
    assert WindowCount([TimedKey(e.key, e.timestamp)][1..], k, cutoff) == 0;
  }

  /** What a replay keeps and what it forgets add up. */
  lemma {:induction false} ReplaySplits(base: nat, es: seq<Entry>, k: string, cutoff: int)
    ensures WindowCount(Keyed(es), k, cutoff) ==
            WindowCount(Keyed(Replay(base, es)), k, cutoff) + WindowCount(Keyed(Repeats(es)), k, cutoff)
  {
    if es != [] {
      var n := |es| - 1;
      var before, e := es[..n], es[n];
      var kept := Replay(base, before);
      ReplaySplits(base, before, k, cutoff);
      ReplayKeepsIds(base, before);
      assert es == before + [e];
      KeyedSnoc(before, e, k, cutoff);
      if e.id in Ids(before) {
        KeyedSnoc(Repeats(before), e, k, cutoff);
      } else {
        KeyedSnoc(kept, e.(offset := base + |kept|), k, cutoff);
        assert Repeats(before) + [] == Repeats(before);
      }
    }
  }

  /** No element in the window stands in the timeline. */
  ghost predicate AllOld(tl: seq<TimedKey>, cutoff: int) {
    forall i :: 0 <= i < |tl| ==> tl[i].at < cutoff
  }

  /**
  Every entry whose id had come before has left the window, and so has everything in
  front of it: an eviction has dropped it.
  */
  ghost predicate RepeatsEvicted(tl: seq<TimedKey>, es: seq<Entry>, cutoff: int) {
    es == [] ||
    var before, e := es[..|es| - 1], es[|es| - 1];
    RepeatsEvicted(tl, before, cutoff) && (e.id in Ids(before) ==> AllOld(tl + Keyed(es), cutoff))
  }

  /** An eviction of a timeline with one more element at its end. */
  lemma {:induction false} EvictedSnoc(tl: seq<TimedKey>, x: TimedKey, cutoff: int)
    ensures Evicted(tl + [x], cutoff) ==
            if !AllOld(tl, cutoff) then Evicted(tl, cutoff) + [x] else if x.at < cutoff then [] else [x]
    ensures Evicted(tl, cutoff) == [] <==> AllOld(tl, cutoff)
    ensures AllOld(tl + [x], cutoff) <==> AllOld(tl, cutoff) && x.at < cutoff
  {
    AllOldSnoc(tl, x, cutoff);
    if tl == [] {
      assert [x][1..] == [];
      assert Evicted([x][1..], cutoff) == [];
      assert tl + [x] == [x];
    } else if tl[0].at < cutoff {
      EvictedSnoc(tl[1..], x, cutoff);
      assert (tl + [x])[1..] == tl[1..] + [x];
      assert tl == [tl[0]] + tl[1..];
      assert AllOld(tl, cutoff) <==> AllOld(tl[1..], cutoff);
    }
  }

  lemma AllOldSnoc(tl: seq<TimedKey>, x: TimedKey, cutoff: int)
    ensures AllOld(tl + [x], cutoff) <==> AllOld(tl, cutoff) && x.at < cutoff
  {
    if AllOld(tl + [x], cutoff) {
      forall i | 0 <= i < |tl| ensures tl[i].at < cutoff {
        assert (tl + [x])[i] == tl[i];
      }
      assert (tl + [x])[|tl|] == x;
    }
  }

  /** The histories of the whole WAL and of what a replay keeps of it, as they grow by one record. */
  lemma {:induction false} HistorySnoc(tl: seq<TimedKey>, base: nat, es: seq<Entry>)
    requires es != []
    ensures var n := |es| - 1;
            var x := TimedKey(es[n].key, es[n].timestamp);
            && tl + Keyed(es) == tl + Keyed(es[..n]) + [x]
            && tl + Keyed(Replay(base, es)) ==
               tl + Keyed(Replay(base, es[..n])) + (if es[n].id in Ids(es[..n]) then [] else [x])
  {
    var n := |es| - 1;
    var kept := Replay(base, es[..n]);
    ReplayKeepsIds(base, es[..n]);
    if es[n].id !in Ids(es[..n]) {
      assert (kept + [es[n].(offset := base + |kept|)])[..|kept|] == kept;
    }
  }

  /** As long as every repeat has been evicted, forgetting it makes no difference. */
  lemma {:induction false} ForgottenUnnoticed(tl: seq<TimedKey>, base: nat, es: seq<Entry>, cutoff: int)
    requires RepeatsEvicted(tl, es, cutoff)
    ensures Evicted(tl + Keyed(Replay(base, es)), cutoff) == Evicted(tl + Keyed(es), cutoff)
    decreases |es|
  {
    if es != [] {
      var n := |es| - 1;
      var x := TimedKey(es[n].key, es[n].timestamp);
      var all, kept := tl + Keyed(es[..n]), tl + Keyed(Replay(base, es[..n]));
      ForgottenUnnoticed(tl, base, es[..n], cutoff);
      HistorySnoc(tl, base, es);
      EvictedSnoc(all, x, cutoff);
      EvictedSnoc(kept, x, cutoff);
      assert kept + [] == kept;
    }
  }

  /** A part of a timeline counts no key more often than the whole. */
  ghost predicate CountsAtMost(a: seq<TimedKey>, b: seq<TimedKey>) {
    forall k :: Freq(a, k) <= Freq(b, k)
  }

  ghost predicate CountsLess(a: seq<TimedKey>, b: seq<TimedKey>) {
    CountsAtMost(a, b) && exists k :: Freq(a, k) < Freq(b, k)
  }

  lemma {:induction false} FreqSnoc(tl: seq<TimedKey>, x: TimedKey, k: string)
    ensures Freq(tl + [x], k) == Freq(tl, k) + (if x.key == k then 1 else 0)
  {
    FreqAppend(tl, [x], k);
    assert Freq([x][1..], k) == 0;
  }

  lemma CountsSnoc(a: seq<TimedKey>, b: seq<TimedKey>, x: TimedKey)
    requires CountsAtMost(a, b)
    ensures CountsLess(a, b + [x])
    ensures CountsLess(a, b) ==> CountsLess(a + [x], b + [x])
  {
    forall k
      ensures Freq(a + [x], k) == Freq(a, k) + (if x.key == k then 1 else 0)
      ensures Freq(b + [x], k) == Freq(b, k) + (if x.key == k then 1 else 0)
    {
      FreqSnoc(a, x, k);
      FreqSnoc(b, x, k);
    }
    assert Freq(a, x.key) < Freq(b + [x], x.key);
    if CountsLess(a, b) {
      var k :| Freq(a, k) < Freq(b, k);
      assert Freq(a + [x], k) < Freq(b + [x], k);
    }
  }

  /** An element that is not evicted counts. */
  lemma {:induction false} UnevictedCounts(tl: seq<TimedKey>, x: TimedKey, cutoff: int)
    requires !AllOld(tl + [x], cutoff)
    ensures CountsLess(Evicted(tl, cutoff), Evicted(tl + [x], cutoff))
  {
    var rest := Evicted(tl, cutoff);
    EvictedSnoc(tl, x, cutoff);
    assert Evicted(tl + [x], cutoff) == rest + [x];
    CountsSnoc(rest, rest, x);
  }

  /** One more element cannot make up for a missed one, whether the replay keeps it or not. */
  lemma {:induction false} MissedStays(kept: seq<TimedKey>, all: seq<TimedKey>, x: TimedKey, cutoff: int)
    requires !AllOld(all, cutoff) && CountsLess(Evicted(kept, cutoff), Evicted(all, cutoff))
    ensures !AllOld(all + [x], cutoff)
    ensures CountsLess(Evicted(kept, cutoff), Evicted(all + [x], cutoff))
    ensures CountsLess(Evicted(kept + [x], cutoff), Evicted(all + [x], cutoff))
  {
    EvictedSnoc(all, x, cutoff);
    EvictedSnoc(kept, x, cutoff);
    var a, b := Evicted(kept, cutoff), Evicted(all, cutoff);
    CountsSnoc(a, b, x);
    if AllOld(kept, cutoff) {
      assert [] + [x] == [x];
    }
  }

  /** A repeat that an eviction has not dropped yet is missed. */
  lemma {:induction false} ForgottenMissed(tl: seq<TimedKey>, base: nat, es: seq<Entry>, cutoff: int)
    requires !RepeatsEvicted(tl, es, cutoff)
    ensures CountsLess(Evicted(tl + Keyed(Replay(base, es)), cutoff), Evicted(tl + Keyed(es), cutoff))
    ensures !AllOld(tl + Keyed(es), cutoff)
    decreases |es|
  {
    var n := |es| - 1;
    var x := TimedKey(es[n].key, es[n].timestamp);
    var all, kept := tl + Keyed(es[..n]), tl + Keyed(Replay(base, es[..n]));
    HistorySnoc(tl, base, es);
    assert kept + [] == kept;
    if RepeatsEvicted(tl, es[..n], cutoff) {
      ForgottenUnnoticed(tl, base, es[..n], cutoff);
      UnevictedCounts(all, x, cutoff);
    } else {
      ForgottenMissed(tl, base, es[..n], cutoff);
      MissedStays(kept, all, x, cutoff);
    }
  }

  lemma CountingLessShows(a: seq<TimedKey>, b: seq<TimedKey>)
    requires CountsLess(a, b)
    ensures CountsOf(a) != CountsOf(b)
  {
    CountsExact(CountsOf(a), a);
    CountsExact(CountsOf(b), b);
    var k :| Freq(a, k) < Freq(b, k);
    assert Count(CountsOf(a), k) < Count(CountsOf(b), k);
  }

  /** Forgetting the repeats goes unnoticed exactly when they have been evicted. */
  lemma {:induction false} ForgettingExact(tl: seq<TimedKey>, base: nat, es: seq<Entry>, cutoff: int)
    ensures CountsOf(Evicted(tl + Keyed(Replay(base, es)), cutoff)) == CountsOf(Evicted(tl + Keyed(es), cutoff)) <==>
              RepeatsEvicted(tl, es, cutoff)
  {
    if RepeatsEvicted(tl, es, cutoff) {
      ForgottenUnnoticed(tl, base, es, cutoff);
    } else {
      ForgottenMissed(tl, base, es, cutoff);
      CountingLessShows(Evicted(tl + Keyed(Replay(base, es)), cutoff), Evicted(tl + Keyed(es), cutoff));
    }
  }

  lemma {:induction false} ReplayTimes(base: nat, es: seq<Entry>, clock: int)
    requires forall i :: 0 <= i < |es| ==> es[i].timestamp <= clock
    ensures forall i :: 0 <= i < |Replay(base, es)| ==> Replay(base, es)[i].timestamp <= clock
  {
    if es != [] {
      ReplayTimes(base, es[..|es| - 1], clock);
    }
  }

  /** The timeline on disk but for what a replay forgets. */
  function KeptTimeline(l: LogState): seq<TimedKey> {
    SnapshotTimeline(l.disk) + Keyed(Replay(l.base, l.entries))
  }

  lemma {:induction false} LiveCounts(s: PartitionState, window: int, t: int)
    requires Recoverable(s, window, t)
    ensures CountsAt(s, window, t) == CountsOf(Evicted(DiskTimeline(s.log), t - window))
  {
    EvictedTrailing(s.timeline, DiskTimeline(s.log), t - window, t - window);
  }

  lemma {:induction false} CountsAfterRestart(s: PartitionState, window: int, noIdempotent: bool, now: int, t: int)
    requires Recoverable(s, window, t)
    ensures CountsAt(Started(s.log.disk, window, noIdempotent, now), window, t) ==
            CountsOf(Evicted(KeptTimeline(s.log), t - window))
  {
    var tl, kept := SnapshotTimeline(s.log.disk), Replay(s.log.base, s.log.entries);
    ReplayTimes(s.log.base, s.log.entries, t);
    ReplayTrails(tl, window, kept, t);
    EvictedTrailing(AppliedAll(tl, window, kept), tl + Keyed(kept), t - window, t - window);
  }

  /** A live partition counts what the disk holds, a restarted one what the replay keeps of it. */
  lemma {:induction false} RestartedCountsDiffer(s: PartitionState, window: int, noIdempotent: bool, now: int, t: int)
    requires Recoverable(s, window, t)
    ensures CountsAt(Started(s.log.disk, window, noIdempotent, now), window, t) == CountsAt(s, window, t) <==>
              RepeatsEvicted(SnapshotTimeline(s.log.disk), s.log.entries, t - window)
  {
    LiveCounts(s, window, t);
    CountsAfterRestart(s, window, noIdempotent, now, t);
    ForgettingExact(SnapshotTimeline(s.log.disk), s.log.base, s.log.entries, t - window);
  }

  /**
  Over all admissible runs, whatever ids the log retains and in whatever order its times
  are: a restart reports the same counts at a time t that no command is past if and only if
  every retained entry whose id had come before has left the window by then, and with it
  everything on the disk in front of it.
  */
  lemma {:induction false} RestartedCountsExact(window: int, noIdempotent: bool, start: int, cs: seq<Command>,
                                                now: int, t: int)
    requires AdmissibleRun(Fresh(window, noIdempotent, start), window, cs)
    requires forall i :: 0 <= i < |cs| ==> NotAfter(cs[i], t)
    ensures var s := AfterCommands(Fresh(window, noIdempotent, start), window, cs);
            CountsAt(Started(s.log.disk, window, noIdempotent, now), window, t) == CountsAt(s, window, t) <==>
              RepeatsEvicted(SnapshotTimeline(s.log.disk), s.log.entries, t - window)
  {
    RunRecoverable(window, noIdempotent, start, cs, t);
    RestartedCountsDiffer(AfterCommands(Fresh(window, noIdempotent, start), window, cs), window, noIdempotent, now, t);
  }

  // ----- with nothing buried the repeats alone decide -----

  ghost predicate LeftWindow(es: seq<Entry>, cutoff: int) {
    forall i :: 0 <= i < |es| ==> es[i].timestamp < cutoff
  }

  lemma {:induction false} TrailingNotBuried(tl: seq<TimedKey>, history: seq<TimedKey>, cutoff: int)
    requires Trails(tl, history, cutoff) && !Buried(history, cutoff)
    ensures !Buried(tl, cutoff)
    decreases |history|
  {
    if tl != history {
      BuriedRest(history, cutoff);
      TrailingNotBuried(tl, history[1..], cutoff);
    }
  }

  lemma NotBuriedSnoc(tl: seq<TimedKey>, x: TimedKey, cutoff: int)
    ensures !Buried(tl + [x], cutoff) ==> !Buried(tl, cutoff) && (x.at >= cutoff || AllOld(tl, cutoff))
  {
    var more := tl + [x];
    if Buried(tl, cutoff) {
      var i, j :| 0 <= i < j < |tl| && tl[j].at < cutoff <= tl[i].at;
      assert more[j].at < cutoff <= more[i].at;
    }
    if x.at < cutoff && !AllOld(tl, cutoff) {
      var i :| 0 <= i < |tl| && tl[i].at >= cutoff;
      assert more[|tl|].at < cutoff <= more[i].at;
    }
  }

  lemma {:induction false} RepeatsDecide(tl: seq<TimedKey>, es: seq<Entry>, cutoff: int)
    requires !Buried(tl + Keyed(es), cutoff)
    ensures RepeatsEvicted(tl, es, cutoff) <==> LeftWindow(Repeats(es), cutoff)
  {
    if es != [] {
      var n := |es| - 1;
      var x := TimedKey(es[n].key, es[n].timestamp);
      HistorySnoc(tl, 0, es);
      NotBuriedSnoc(tl + Keyed(es[..n]), x, cutoff);
      AllOldSnoc(tl + Keyed(es[..n]), x, cutoff);
      RepeatsDecide(tl, es[..n], cutoff);
      LeftWindowSnoc(Repeats(es[..n]), es[n], cutoff);
      assert Repeats(es[..n]) + [] == Repeats(es[..n]);
    }
  }

  lemma LeftWindowSnoc(es: seq<Entry>, e: Entry, cutoff: int)
    ensures LeftWindow(es + [e], cutoff) <==> LeftWindow(es, cutoff) && e.timestamp < cutoff
  {
    if LeftWindow(es + [e], cutoff) {
      forall i | 0 <= i < |es| ensures es[i].timestamp < cutoff {
        assert (es + [e])[i] == es[i];
      }
      assert (es + [e])[|es|] == e;
    }
  }

  lemma {:induction false} RepeatsDecideAfter(s: PartitionState, accepted: seq<TimedKey>, cutoff: int)
    requires Trails(DiskTimeline(s.log), accepted, cutoff) && !Buried(accepted, cutoff)
    ensures RepeatsEvicted(SnapshotTimeline(s.log.disk), s.log.entries, cutoff) <==>
              LeftWindow(Repeats(s.log.entries), cutoff)
  {
    TrailingNotBuried(DiskTimeline(s.log), accepted, cutoff);
    RepeatsDecide(SnapshotTimeline(s.log.disk), s.log.entries, cutoff);
  }

  /**
  While no accepted write is buried, the same counts are reported if and only if every
  entry whose id had come before has left the window.
  */
  lemma {:induction false} RestartedCountsInOrder(window: int, noIdempotent: bool, start: int, cs: seq<Command>,
                                                  now: int, t: int)
    requires AdmissibleRun(Fresh(window, noIdempotent, start), window, cs)
    requires forall i :: 0 <= i < |cs| ==> NotAfter(cs[i], t)
    requires !Buried(AllAccepted(Fresh(window, noIdempotent, start), window, cs), t - window)
    ensures var s := AfterCommands(Fresh(window, noIdempotent, start), window, cs);
            CountsAt(Started(s.log.disk, window, noIdempotent, now), window, t) == CountsAt(s, window, t) <==>
              LeftWindow(Repeats(s.log.entries), t - window)
  {
    RestartedCountsExact(window, noIdempotent, start, cs, now, t);
    DiskTrailsAccepted(window, noIdempotent, start, cs, t);
    RepeatsDecideAfter(AfterCommands(Fresh(window, noIdempotent, start), window, cs),
                       AllAccepted(Fresh(window, noIdempotent, start), window, cs), t - window);
  }
}
