/**
The sliding-window counter refines its simple definition: at time t, a key counts
the entries ever applied with that key and a timestamp inside the window.
*/
module AggregateProperties {
  import opened EventLog
  import opened Aggregate

  /** What happens to the timeline: entries are applied, and queries or snapshots evict. */
  datatype Step = ApplyStep(e: Entry) | EvictStep(now: int)

  function TimeOf(step: Step): int {
    match step
    case ApplyStep(e) => e.timestamp
    case EvictStep(now) => now
  }

  function Stepped(tl: seq<TimedKey>, window: int, step: Step): seq<TimedKey> {
    match step
    case ApplyStep(e) => AppliedTo(tl, window, e)
    case EvictStep(now) => Evicted(tl, now - window)
  }

  function AfterSteps(tl: seq<TimedKey>, window: int, steps: seq<Step>): seq<TimedKey> {
    if steps == [] then tl
    else Stepped(AfterSteps(tl, window, steps[..|steps| - 1]), window, steps[|steps| - 1])
  }

  /** Everything ever applied, never evicted. */
  function History(steps: seq<Step>): seq<TimedKey> {
    if steps == [] then []
    else
      var before := History(steps[..|steps| - 1]);
      match steps[|steps| - 1]
      case ApplyStep(e) => before + [TimedKey(e.key, e.timestamp)]
      case EvictStep(_) => before
  }

  /** The simple definition: no eviction, no order, every element is looked at. */
  function WindowCount(history: seq<TimedKey>, k: string, cutoff: int): nat {
    if history == [] then 0
    else (if history[0].key == k && history[0].at >= cutoff then 1 else 0) + WindowCount(history[1..], k, cutoff)
  }

  ghost predicate NondecreasingSteps(steps: seq<Step>) {
    forall i, j :: 0 <= i < j < |steps| ==> TimeOf(steps[i]) <= TimeOf(steps[j])
  }

  ghost predicate Chronological(tl: seq<TimedKey>) {
    forall i, j :: 0 <= i < j < |tl| ==> tl[i].at <= tl[j].at
  }

  /** A timeline is its history without a front part that is older than the cutoff. */
  ghost predicate Trails(tl: seq<TimedKey>, history: seq<TimedKey>, cutoff: int) {
    tl == history || (history != [] && history[0].at < cutoff && Trails(tl, history[1..], cutoff))
  }

  /** An eviction cannot tell a timeline from the history it trails. */
  lemma {:induction false} EvictedTrailing(tl: seq<TimedKey>, history: seq<TimedKey>, past: int, cutoff: int)
    requires Trails(tl, history, past) && past <= cutoff
    ensures Evicted(tl, cutoff) == Evicted(history, cutoff)
    decreases |history|
  {
    if tl != history {
      EvictedTrailing(tl, history[1..], past, cutoff);
    }
  }

  /** Evicting no further than the cutoff keeps trailing. */
  lemma {:induction false} EvictionTrails(tl: seq<TimedKey>, history: seq<TimedKey>, cutoff: int, now: int)
    requires Trails(tl, history, cutoff) && now <= cutoff
    ensures Trails(Evicted(tl, now), history, cutoff)
    decreases |history|, |tl|
  {
    if tl != history {
      EvictionTrails(tl, history[1..], cutoff, now);
    } else if tl != [] && tl[0].at < now {
      EvictionTrails(tl[1..], tl[1..], cutoff, now);
    }
  }

  /** A new element goes to the end of both. */
  lemma {:induction false} SnocTrails(tl: seq<TimedKey>, history: seq<TimedKey>, cutoff: int, x: TimedKey)
    requires Trails(tl, history, cutoff)
    ensures Trails(tl + [x], history + [x], cutoff)
    decreases |history|
  {
    if tl != history {
      SnocTrails(tl, history[1..], cutoff, x);
      assert (history + [x])[1..] == history[1..] + [x];
    }
  }

  lemma {:induction false} StepTrails(tl: seq<TimedKey>, history: seq<TimedKey>, cutoff: int, now: int, x: TimedKey)
    requires Trails(tl, history, cutoff) && now <= cutoff
    ensures Trails(Evicted(tl, now), history, cutoff)
    ensures Trails(Evicted(tl, now) + [x], history + [x], cutoff)
  {
    EvictionTrails(tl, history, cutoff, now);
    SnocTrails(Evicted(tl, now), history, cutoff, x);
  }

  lemma {:induction false} RunTrails(tl: seq<TimedKey>, window: int, steps: seq<Step>, t: int)
    requires forall i :: 0 <= i < |steps| ==> TimeOf(steps[i]) <= t
    ensures Trails(AfterSteps(tl, window, steps), tl + History(steps), t - window)
  {
    if steps == [] {
      assert tl + [] == tl;
    } else {
      var n := |steps| - 1;
      var before, step := steps[..n], steps[n];
      RunTrails(tl, window, before, t);
      var mid, history := AfterSteps(tl, window, before), tl + History(before);
      var x := if step.ApplyStep? then TimedKey(step.e.key, step.e.timestamp) else TimedKey("", 0);
      StepTrails(mid, history, t - window, TimeOf(step) - window, x);
      assert step.ApplyStep? ==> tl + History(steps) == history + [x];
    }
  }

  lemma {:induction false} AllInWindow(tl: seq<TimedKey>, k: string, cutoff: int)
    requires forall i :: 0 <= i < |tl| ==> tl[i].at >= cutoff
    ensures WindowCount(tl, k, cutoff) == Freq(tl, k)
  {
    if tl != [] {
      AllInWindow(tl[1..], k, cutoff);
    }
  }

  /** An element older than the cutoff stands behind one that is still in the window. */
  ghost predicate Buried(history: seq<TimedKey>, cutoff: int) {
    exists i, j :: 0 <= i < j < |history| && history[j].at < cutoff <= history[i].at
  }

  /** Evicting from the front never drops an element of the window. */
  lemma {:induction false} EvictionOvercounts(tl: seq<TimedKey>, k: string, cutoff: int)
    ensures Freq(tl, k) >= WindowCount(tl, k, cutoff)
    ensures Freq(Evicted(tl, cutoff), k) >= WindowCount(tl, k, cutoff)
  {
    if tl != [] {
      EvictionOvercounts(tl[1..], k, cutoff);
    }
  }

  /** A timeline with an old element counts the key of one too often. */
  lemma {:induction false} OldElementCounts(tl: seq<TimedKey>, j: nat, cutoff: int)
    requires j < |tl| && tl[j].at < cutoff
    ensures Freq(tl, tl[j].key) > WindowCount(tl, tl[j].key, cutoff)
  {
    EvictionOvercounts(tl[1..], tl[j].key, cutoff);
    if j > 0 {
      OldElementCounts(tl[1..], j - 1, cutoff);
    }
  }

  /** Dropping an old front element buries nothing and digs nothing out. */
  lemma BuriedRest(history: seq<TimedKey>, cutoff: int)
    requires history != [] && history[0].at < cutoff
    ensures Buried(history, cutoff) <==> Buried(history[1..], cutoff)
  {
    var rest := history[1..];
    if Buried(history, cutoff) {
      var i, j :| 0 <= i < j < |history| && history[j].at < cutoff <= history[i].at;
      assert rest[j - 1].at < cutoff <= rest[i - 1].at;
    }
    if Buried(rest, cutoff) {
      var i, j :| 0 <= i < j < |rest| && rest[j].at < cutoff <= rest[i].at;
      assert history[j + 1].at < cutoff <= history[i + 1].at;
    }
  }

  ghost predicate EvictionExact(history: seq<TimedKey>, cutoff: int) {
    forall k :: Freq(Evicted(history, cutoff), k) == WindowCount(history, k, cutoff)
  }

  lemma EvictionExactRest(history: seq<TimedKey>, cutoff: int)
    requires history != [] && history[0].at < cutoff
    ensures EvictionExact(history, cutoff) <==> EvictionExact(history[1..], cutoff)
  {
    assert Evicted(history, cutoff) == Evicted(history[1..], cutoff);
    assert forall k :: WindowCount(history, k, cutoff) == WindowCount(history[1..], k, cutoff);
  }

  /**
  Evicting from the front counts every key as looking at every element does if and only
  if no old element is buried behind a younger one.
  */
  lemma {:induction false} EvictedExactUnlessBuried(history: seq<TimedKey>, cutoff: int)
    ensures EvictionExact(history, cutoff) <==> !Buried(history, cutoff)
  {
    if history == [] {
    } else if history[0].at < cutoff {
      BuriedRest(history, cutoff);
      EvictionExactRest(history, cutoff);
      EvictedExactUnlessBuried(history[1..], cutoff);
    } else if Buried(history, cutoff) {
      var i, j :| 0 <= i < j < |history| && history[j].at < cutoff <= history[i].at;
      OldElementCounts(history, j, cutoff);
    } else {
      forall k ensures Freq(history, k) == WindowCount(history, k, cutoff) {
        assert forall j :: 0 < j < |history| && history[j].at < cutoff ==> history[0].at < cutoff;
        AllInWindow(history, k, cutoff);
      }
    }
  }

  lemma {:induction false} HistoryChronological(steps: seq<Step>)
    requires NondecreasingSteps(steps)
    ensures Chronological(History(steps))
    ensures forall i :: 0 <= i < |History(steps)| ==>
              steps != [] && History(steps)[i].at <= TimeOf(steps[|steps| - 1])
  {
    if steps != [] {
      var before := steps[..|steps| - 1];
      HistoryChronological(before);
      assert before != [] ==> TimeOf(before[|before| - 1]) <= TimeOf(steps[|steps| - 1]);
    }
  }

  /** No key is counted too low. */
  ghost predicate NothingMissed(counts: map<string, nat>, history: seq<TimedKey>, cutoff: int) {
    forall k :: Count(counts, k) >= WindowCount(history, k, cutoff)
  }

  /** Every key has the number of its elements in the window, and exactly the keys with one are listed. */
  ghost predicate CountsWindow(counts: map<string, nat>, history: seq<TimedKey>, cutoff: int) {
    forall k :: Count(counts, k) == WindowCount(history, k, cutoff) &&
                (k in counts <==> WindowCount(history, k, cutoff) > 0)
  }

  lemma {:induction false} EvictedCountsMissNothing(history: seq<TimedKey>, cutoff: int)
    ensures NothingMissed(CountsOf(Evicted(history, cutoff)), history, cutoff)
  {
    var current := Evicted(history, cutoff);
    CountsExact(CountsOf(current), current);
    forall k ensures Count(CountsOf(current), k) >= WindowCount(history, k, cutoff) {
      EvictionOvercounts(history, k, cutoff);
    }
  }

  lemma {:induction false} EvictedCountsExact(history: seq<TimedKey>, cutoff: int)
    ensures CountsWindow(CountsOf(Evicted(history, cutoff)), history, cutoff) <==> EvictionExact(history, cutoff)
  {
    var current := Evicted(history, cutoff);
    CountsExact(CountsOf(current), current);
  }

  /** A timeline that trails its history never counts too little, and exactly unless something is buried. */
  lemma {:induction false} TrailingCountsExact(tl: seq<TimedKey>, history: seq<TimedKey>, cutoff: int)
    requires Trails(tl, history, cutoff)
    ensures CountsWindow(CountsOf(Evicted(tl, cutoff)), history, cutoff) <==> !Buried(history, cutoff)
    ensures NothingMissed(CountsOf(Evicted(tl, cutoff)), history, cutoff)
  {
    EvictedTrailing(tl, history, cutoff, cutoff);
    EvictedExactUnlessBuried(history, cutoff);
    EvictedCountsMissNothing(history, cutoff);
    EvictedCountsExact(history, cutoff);
  }

  /**
  When windowed counts are exact: after any run, in any order of times and with any
  evictions in between, the counts at a time t that no step is past never miss an entry
  of the window, and are exact for every key if and only if no entry that has left the
  window was applied after one that is still in it.
  */
  lemma {:induction false} WindowedCountsExact(window: int, steps: seq<Step>, t: int)
    requires forall i :: 0 <= i < |steps| ==> TimeOf(steps[i]) <= t
    ensures var counts := CountsOf(Evicted(AfterSteps([], window, steps), t - window));
            && (CountsWindow(counts, History(steps), t - window) <==> !Buried(History(steps), t - window))
            && NothingMissed(counts, History(steps), t - window)
  {
    var tl, history := AfterSteps([], window, steps), History(steps);
    assert Trails(tl, history, t - window) by {
      RunTrails([], window, steps, t);
      assert [] + history == history;
    }
    TrailingCountsExact(tl, history, t - window);
  }

  lemma ChronologicalNotBuried(history: seq<TimedKey>, cutoff: int)
    requires Chronological(history)
    ensures !Buried(history, cutoff)
  {
  }

  /** With times that do not run back the counts are always exact. */
  lemma {:induction false} WindowedCountsInOrder(window: int, steps: seq<Step>, t: int)
    requires NondecreasingSteps(steps)
    requires steps != [] ==> TimeOf(steps[|steps| - 1]) <= t
    ensures CountsWindow(CountsOf(Evicted(AfterSteps([], window, steps), t - window)), History(steps), t - window)
  {
    WindowedCountsExact(window, steps, t);
    HistoryChronological(steps);
    ChronologicalNotBuried(History(steps), t - window);
  }

  /**
  The order is needed: an entry that arrives with an older timestamp hides behind a
  younger one, so the window still counts it.
  */
  lemma OutOfOrderIsOvercounted()
    ensures var late, early := Entry(0, "1", "k", [], 10), Entry(1, "2", "k", [], 3);
            var steps := [ApplyStep(late), ApplyStep(early)];
            && Count(CountsOf(Evicted(AfterSteps([], 5, steps), 10 - 5)), "k") == 2
            && WindowCount(History(steps), "k", 10 - 5) == 1
  {
    var late, early := Entry(0, "1", "k", [], 10), Entry(1, "2", "k", [], 3);
    var s1, s2 := ApplyStep(late), ApplyStep(early);
    assert [s1, s2][..1] == [s1] && [s1][..0] == [];
    assert AfterSteps([], 5, [s1]) == [TimedKey("k", 10)] by {
      assert AfterSteps([], 5, [s1][..0]) == [];
    }
    assert History([s1]) == [TimedKey("k", 10)] by {
      assert History([s1][..0]) == [];
    }
    var tl := [TimedKey("k", 10), TimedKey("k", 3)];
    assert AfterSteps([], 5, [s1, s2]) == tl && History([s1, s2]) == tl;
    assert tl[1..] == [TimedKey("k", 3)] && tl[1..][1..] == [];
    CountsExact(CountsOf(tl), tl);
  }
}
