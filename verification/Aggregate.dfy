/**
The sliding-window counter of one node (internal/aggregate/aggregate.go): a map of
counts that must at all times agree with a timeline of the keys it counts.
*/
module Aggregate {
  import opened Wrappers
  import opened EventLog
  import opened Sorting

  const MAX_UINT64: nat := TWO_TO_THE_64 - 1

  /** How often a key stands in a timeline. */
  function Freq(tl: seq<TimedKey>, k: string): nat {
    if tl == [] then 0 else (if tl[0].key == k then 1 else 0) + Freq(tl[1..], k)
  }

  function KeysOf(tl: seq<TimedKey>): set<string> {
    set x | x in tl :: x.key
  }

  /** The counts a timeline stands for: present keys only, each with its frequency. */
  function CountsOf(tl: seq<TimedKey>): map<string, nat> {
    map k | k in KeysOf(tl) :: Freq(tl, k)
  }

  /** What is left after dropping the leading elements older than the cutoff. */
  function Evicted(tl: seq<TimedKey>, cutoff: int): seq<TimedKey> {
    if tl != [] && tl[0].at < cutoff then Evicted(tl[1..], cutoff) else tl
  }

  /** `Apply`, as the timeline sees it. */
  function AppliedTo(tl: seq<TimedKey>, window: int, e: Entry): seq<TimedKey> {
    Evicted(tl, e.timestamp - window) + [TimedKey(e.key, e.timestamp)]
  }

  /** Applying a sequence of entries in order. */
  function AppliedAll(tl: seq<TimedKey>, window: int, es: seq<Entry>): seq<TimedKey> {
    if es == [] then tl
    else AppliedTo(AppliedAll(tl, window, es[..|es| - 1]), window, es[|es| - 1])
  }

  /** Go's `--` on a `uint64`. */
  function Decremented(n: nat): nat {
    if n == 0 then MAX_UINT64 else n - 1
  }

  /** Reading a missing key of a Go map gives zero. */
  function Count(counts: map<string, nat>, k: string): nat {
    if k in counts then counts[k] else 0
  }

  lemma {:induction false} FreqAppend(a: seq<TimedKey>, b: seq<TimedKey>, k: string)
    ensures Freq(a + b, k) == Freq(a, k) + Freq(b, k)
  {
    if a == [] {
      assert a + b == b;
    } else {
      assert (a + b)[1..] == a[1..] + b;
      FreqAppend(a[1..], b, k);
    }
  }

  lemma {:induction false} FreqPositive(tl: seq<TimedKey>, k: string)
    ensures Freq(tl, k) > 0 <==> k in KeysOf(tl)
  {
    if tl != [] {
      FreqPositive(tl[1..], k);
      assert tl == [tl[0]] + tl[1..];
    }
  }

  /** A count map agrees with a timeline exactly when every key has its frequency, and only present keys an entry. */
  lemma {:induction false} CountsExact(counts: map<string, nat>, tl: seq<TimedKey>)
    ensures counts == CountsOf(tl) <==>
              forall k :: Count(counts, k) == Freq(tl, k) && (k in counts <==> Freq(tl, k) > 0)
  {
    forall k ensures Freq(tl, k) > 0 <==> k in CountsOf(tl) {
      FreqPositive(tl, k);
    }
    if forall k :: Count(counts, k) == Freq(tl, k) && (k in counts <==> Freq(tl, k) > 0) {
      assert forall k :: k in counts ==> counts[k] == Count(counts, k);
    }
  }

  /** Lowers the count of a key and removes it at zero. */
  function Uncounted(counts: map<string, nat>, k: string): map<string, nat> {
    var lowered := counts[k := Decremented(Count(counts, k))];
    if lowered[k] == 0 then lowered - {k} else lowered
  }

  /** The counts after an eviction, whether or not they were those of the timeline. */
  function EvictedCounts(counts: map<string, nat>, tl: seq<TimedKey>, cutoff: int): map<string, nat>
    decreases |tl|
  {
    if tl != [] && tl[0].at < cutoff then EvictedCounts(Uncounted(counts, tl[0].key), tl[1..], cutoff) else counts
  }

  function AppliedCounts(counts: map<string, nat>, tl: seq<TimedKey>, window: int, e: Entry): map<string, nat> {
    var evicted := EvictedCounts(counts, tl, e.timestamp - window);
    evicted[e.key := Count(evicted, e.key) + 1]
  }

  /** Dropping the first element lowers one positive count and removes it at zero. */
  lemma CountsDropFirst(tl: seq<TimedKey>)
    requires tl != []
    ensures Count(CountsOf(tl), tl[0].key) > 0
    ensures CountsOf(tl[1..]) == Uncounted(CountsOf(tl), tl[0].key)
  {
    CountsExact(CountsOf(tl), tl);
    CountsExact(Uncounted(CountsOf(tl), tl[0].key), tl[1..]);
  }

  /** An eviction keeps counts and timeline in agreement. */
  lemma {:induction false} EvictionKeepsCounts(tl: seq<TimedKey>, cutoff: int)
    ensures EvictedCounts(CountsOf(tl), tl, cutoff) == CountsOf(Evicted(tl, cutoff))
  {
    if tl != [] && tl[0].at < cutoff {
      CountsDropFirst(tl);
      EvictionKeepsCounts(tl[1..], cutoff);
    }
  }

  lemma CountsAddLast(tl: seq<TimedKey>, x: TimedKey)
    ensures CountsOf(tl + [x]) == CountsOf(tl)[x.key := Count(CountsOf(tl), x.key) + 1]
  {
    var counts := CountsOf(tl);
    CountsExact(counts, tl);
    forall k ensures Freq(tl + [x], k) == Freq(tl, k) + (if k == x.key then 1 else 0) {
      FreqAppend(tl, [x], k);
    }
    CountsExact(counts[x.key := Count(counts, x.key) + 1], tl + [x]);
  }

  /** Applying an entry keeps counts and timeline in agreement. */
  lemma ApplyKeepsCounts(tl: seq<TimedKey>, window: int, e: Entry)
    ensures AppliedCounts(CountsOf(tl), tl, window, e) == CountsOf(AppliedTo(tl, window, e))
  {
    var rest := Evicted(tl, e.timestamp - window);
    EvictionKeepsCounts(tl, e.timestamp - window);
    assert AppliedCounts(CountsOf(tl), tl, window, e) == CountsOf(rest)[e.key := Count(CountsOf(rest), e.key) + 1];
    CountsAddLast(rest, TimedKey(e.key, e.timestamp));
  }

  datatype TopEntry = TopEntry(key: string, count: nat)

  predicate AtLeastAsFrequent(x: TopEntry, y: TopEntry) {
    x.count >= y.count
  }

  ghost predicate DistinctKeys(s: seq<TopEntry>) {
    forall i, j :: 0 <= i < j < |s| ==> s[i].key != s[j].key
  }

  ghost predicate ExactCounts(counts: map<string, nat>, out: seq<TopEntry>) {
    forall i :: 0 <= i < |out| ==> out[i].key in counts && out[i].count == counts[out[i].key]
  }

  /** No omitted key is more frequent than a returned one. */
  ghost predicate NoneBetterOmitted(counts: map<string, nat>, out: seq<TopEntry>) {
    forall k, i :: k in counts && 0 <= i < |out| && counts[k] > out[i].count ==>
      exists j :: 0 <= j < i && out[j].key == k
  }

  /**
  A true top-K of a count map: as many entries as there can be, distinct keys, exact
  counts, most frequent first, and no omitted key more frequent than a returned one.
  */
  ghost predicate IsTopK(counts: map<string, nat>, topK: nat, out: seq<TopEntry>) {
    && |out| == (if topK < |counts| then topK else |counts|)
    && DistinctKeys(out)
    && ExactCounts(counts, out)
    && Sorted(AtLeastAsFrequent, out)
    && NoneBetterOmitted(counts, out)
  }

  /** `s` lists the entries of a count map, except those still to visit, each once. */
  ghost predicate ListsExcept(counts: map<string, nat>, todo: set<string>, s: seq<TopEntry>) {
    && DistinctKeys(s)
    && (forall x :: x in s ==> x.key in counts && x.key !in todo && x.count == counts[x.key])
    && (forall k :: k in counts && k !in todo ==> TopEntry(k, counts[k]) in s)
  }

  lemma {:induction false} ListSize(counts: map<string, nat>, todo: set<string>, s: seq<TopEntry>)
    requires ListsExcept(counts, todo, s)
    ensures |s| == |counts.Keys - todo|
    decreases |s|
  {
    if s == [] {
      assert counts.Keys - todo == {};
    } else {
      var n := |s| - 1;
      var more := todo + {s[n].key};
      forall k | k in counts && k !in more ensures TopEntry(k, counts[k]) in s[..n] {
        var i :| 0 <= i < |s| && s[i] == TopEntry(k, counts[k]);
      }
      assert ListsExcept(counts, more, s[..n]);
      ListSize(counts, more, s[..n]);
      assert counts.Keys - more == counts.Keys - todo - {s[n].key};
    }
  }

  lemma PermutedList(counts: map<string, nat>, listed: seq<TopEntry>, s: seq<TopEntry>)
    requires ListsExcept(counts, {}, listed) && multiset(s) == multiset(listed)
    ensures ListsExcept(counts, {}, s)
  {
    PermutationMembers(listed, s);
    PermutationDistinct(listed, s);
    forall i, j | 0 <= i < j < |s| ensures s[i].key != s[j].key {
      assert s[i] in s && s[j] in s;
    }
  }

  /** Whoever is more frequent than an element of a sorted listing stands before it. */
  lemma EarlierIfMoreFrequent(counts: map<string, nat>, s: seq<TopEntry>, k: string, i: nat) returns (j: nat)
    requires ListsExcept(counts, {}, s) && Sorted(AtLeastAsFrequent, s)
    requires k in counts && i < |s| && counts[k] > s[i].count
    ensures j < i && s[j].key == k
  {
    j :| 0 <= j < |s| && s[j] == TopEntry(k, counts[k]);
    assert i < j ==> AtLeastAsFrequent(s[i], s[j]);
  }

  lemma HeadOmitsNoneBetter(counts: map<string, nat>, s: seq<TopEntry>, n: nat)
    requires ListsExcept(counts, {}, s) && Sorted(AtLeastAsFrequent, s) && n <= |s|
    ensures NoneBetterOmitted(counts, s[..n])
  {
    forall k, i | k in counts && 0 <= i < n && counts[k] > s[..n][i].count
      ensures exists j :: 0 <= j < i && s[..n][j].key == k
    {
      var j := EarlierIfMoreFrequent(counts, s, k, i);
      assert s[..n][j].key == k;
    }
  }

  lemma HeadHasExactCounts(counts: map<string, nat>, s: seq<TopEntry>, n: nat)
    requires ListsExcept(counts, {}, s) && n <= |s|
    ensures DistinctKeys(s[..n]) && ExactCounts(counts, s[..n])
  {
    forall i | 0 <= i < n ensures s[i].key in counts && s[i].count == counts[s[i].key] {
      assert s[i] in s;
    }
  }

  lemma SortedHead(s: seq<TopEntry>, n: nat)
    requires Sorted(AtLeastAsFrequent, s) && n <= |s|
    ensures Sorted(AtLeastAsFrequent, s[..n])
  {
  }

  /** The head of a sorted listing is a top-K. */
  lemma HeadIsTopK(counts: map<string, nat>, topK: nat, s: seq<TopEntry>)
    requires ListsExcept(counts, {}, s) && Sorted(AtLeastAsFrequent, s)
    ensures |s| == |counts|
    ensures IsTopK(counts, topK, s[..if topK < |s| then topK else |s|])
  {
    var n := if topK < |s| then topK else |s|;
    assert |s| == |counts| by {
      ListSize(counts, {}, s);
      assert counts.Keys - {} == counts.Keys;
    }
    HeadHasExactCounts(counts, s, n);
    SortedHead(s, n);
    HeadOmitsNoneBetter(counts, s, n);
  }

  class Aggregate {
    const window: int
    const topK: nat
    var counts: map<string, nat>
    var timeline: seq<TimedKey>

    ghost predicate Valid()
      reads this
    {
      counts == CountsOf(timeline)
    }

    constructor (window: int, topK: nat)
      ensures Valid() && timeline == [] && this.window == window && this.topK == topK
    {
      this.window, this.topK := window, topK;
      counts, timeline := map[], [];
    }

    method Apply(e: Entry)
      modifies this
      ensures timeline == AppliedTo(old(timeline), window, e)
      ensures counts == AppliedCounts(old(counts), old(timeline), window, e)
      ensures old(Valid()) ==> Valid()
    {
      ApplyKeepsCounts(timeline, window, e);
      Evict(e.timestamp);
      counts := counts[e.key := Count(counts, e.key) + 1];
      timeline := timeline + [TimedKey(e.key, e.timestamp)];
    }

    method Counts(now: int) returns (out: map<string, nat>)
      modifies this
      ensures timeline == Evicted(old(timeline), now - window)
      ensures out == counts == EvictedCounts(old(counts), old(timeline), now - window)
      ensures old(Valid()) ==> Valid()
    {
      Evict(now);
      out := counts;
    }

    /** Ranges over the count map, in whatever order. */
    method ListCounts() returns (listed: seq<TopEntry>)
      ensures ListsExcept(counts, {}, listed)
    {
      listed := [];
      var todo := counts.Keys;
      while todo != {}
        invariant todo <= counts.Keys && ListsExcept(counts, todo, listed)
        decreases todo
      {
        var k := Pick(todo);
        todo := todo - {k};
        listed := listed + [TopEntry(k, counts[k])];
      }
    }

    method TopK(now: int) returns (out: seq<TopEntry>)
      modifies this
      ensures timeline == Evicted(old(timeline), now - window)
      ensures counts == EvictedCounts(old(counts), old(timeline), now - window)
      ensures old(Valid()) ==> Valid()
      ensures IsTopK(counts, topK, out)
    {
      Evict(now);
      var listed := ListCounts();
      var buckets := Sort(AtLeastAsFrequent, listed);
      PermutedList(counts, listed, buckets);
      HeadIsTopK(counts, topK, buckets);
      var k := topK;
      if k > |buckets| {
        k := |buckets|;
      }
      out := buckets[..k];
    }

    method Rebuild(entries: seq<Entry>)
      modifies this
      ensures Valid()
      ensures timeline == AppliedAll([], window, entries)
    {
      counts, timeline := map[], [];
      for i := 0 to |entries|
        invariant Valid() && timeline == AppliedAll([], window, entries[..i])
      {
        Apply(entries[i]);
        assert entries[..i + 1][..i] == entries[..i];
      }
      assert entries[..|entries|] == entries;
    }

    method Snapshot(baseOffset: nat, now: int) returns (s: Snapshot)
      modifies this
      ensures timeline == Evicted(old(timeline), now - window)
      ensures counts == EvictedCounts(old(counts), old(timeline), now - window)
      ensures old(Valid()) ==> Valid()
      ensures s == EventLog.Snapshot.Snapshot(baseOffset, counts, timeline)
    {
      Evict(now);
      s := EventLog.Snapshot.Snapshot(baseOffset, counts, timeline);
    }

    /** Takes the counts of the snapshot on trust. */
    method LoadSnapshot(s: Snapshot)
      modifies this
      ensures counts == s.counts && timeline == s.timeline
      ensures Valid() <==> s.counts == CountsOf(s.timeline)
    {
      counts, timeline := s.counts, s.timeline;
    }

    /** Uncounts one occurrence of a key. */
    method Forget(k: string)
      modifies this`counts
      ensures counts == Uncounted(old(counts), k)
    {
      counts := counts[k := Decremented(Count(counts, k))];
      if counts[k] == 0 {
        counts := counts - {k};
      }
    }

    /** Drops what has left the window. */
    method Evict(now: int)
      modifies this
      ensures timeline == Evicted(old(timeline), now - window)
      ensures counts == EvictedCounts(old(counts), old(timeline), now - window)
      ensures old(Valid()) ==> Valid()
    {
      var cutoff := now - window;
      var i := 0;
      EvictionKeepsCounts(timeline, cutoff);
      while i < |timeline| && timeline[i].at < cutoff
        invariant 0 <= i <= |timeline| && timeline == old(timeline)
        invariant Evicted(timeline[i..], cutoff) == Evicted(timeline, cutoff)
        invariant EvictedCounts(counts, timeline[i..], cutoff) == EvictedCounts(old(counts), timeline, cutoff)
      {
        assert timeline[i..][1..] == timeline[i + 1..];
        Forget(timeline[i].key);
        i := i + 1;
      }
      timeline := timeline[i..];
    }
  }
}
