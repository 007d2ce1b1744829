/**
The time-bucketed set of recently accepted IDs (`dedupSet` in internal/log/log.go).

Time is an `int` of nanoseconds since the Unix epoch, as in Go's `time.Time`.
*/
module Dedup {
  import opened Wrappers

  const SECOND := 1_000_000_000
  const DEDUP_TTL := 300 * SECOND

  /** Whole Unix seconds, rounded down as `Time.Unix` does. */
  function Unix(t: int): int {
    t / SECOND
  }

  /** The ids of a table that an eviction at `now` keeps. */
  function Unexpired(at: map<string, int>, cutoff: int): map<string, int> {
    map id | id in at && at[id] > cutoff :: at[id]
  }

  /** Adding an id that is already there leaves its old second in place. */
  function Recorded(at: map<string, int>, id: string, now: int): map<string, int> {
    if id in at then at else at[id := Unix(now)]
  }

  /** The two maps of a dedup set describe the same relation, from either side. */
  ghost predicate Inverse(buckets: map<int, set<string>>, at: map<string, int>) {
    && (forall id :: id in at ==> at[id] in buckets && id in buckets[at[id]])
    && (forall b, id :: b in buckets && id in buckets[b] ==> id in at && at[id] == b)
    && (forall b :: b in buckets ==> buckets[b] != {})
  }

  class DedupSet {
    const ttl: int
    var buckets: map<int, set<string>>
    var at: map<string, int>

    ghost predicate Valid()
      reads this
    {
      Inverse(buckets, at)
    }

    constructor (ttl: int)
      ensures Valid() && this.ttl == ttl && at == map[]
    {
      this.ttl := ttl;
      buckets := map[];
      at := map[];
    }

    method Seen(id: string, now: int) returns (ok: bool)
      requires Valid()
      modifies this
      ensures Valid()
      ensures at == Unexpired(old(at), Unix(now - ttl))
      ensures ok <==> id in at
    {
      Evict(now);
      ok := id in at;
    }

    method Add(id: string, now: int)
      requires Valid()
      modifies this
      ensures Valid()
      ensures at == Recorded(old(at), id, now)
    {
      if id in at {
        return;
      }
      var b := Unix(now);
      var bucket := if b in buckets then buckets[b] else {};
      buckets := buckets[b := bucket + {id}];
      at := at[id := b];
    }

    /** Forgets one whole bucket. */
    method Drop(b: int)
      requires Valid() && b in buckets
      modifies this
      ensures Valid()
      ensures buckets == old(buckets) - {b}
      ensures forall id :: id in at <==> id in old(at) && old(at)[id] != b
      ensures forall id :: id in at ==> at[id] == old(at)[id]
    {
      at := at - buckets[b];
      buckets := buckets - {b};
    }

    /** Visits the buckets in an arbitrary order, as ranging over a Go map does. */
    method Evict(now: int)
      requires Valid()
      modifies this
      ensures Valid()
      ensures at == Unexpired(old(at), Unix(now - ttl))
      ensures forall b :: b in buckets <==> b in old(buckets) && b > Unix(now - ttl)
    {
      var cutoff := Unix(now - ttl);
      var todo := buckets.Keys;
      while todo != {}
        invariant Valid()
        invariant todo <= buckets.Keys <= old(buckets).Keys
        invariant forall b :: b in old(buckets) && b !in buckets ==> b <= cutoff
        invariant forall b :: b in buckets && b !in todo ==> b > cutoff
        invariant forall id :: id in at ==> id in old(at) && at[id] == old(at)[id]
        invariant forall id :: id in old(at) && id !in at ==> old(at)[id] <= cutoff
        decreases todo
      {
        var b := Pick(todo);
        todo := todo - {b};
        if b <= cutoff {
          Drop(b);
        }
      }
    }
  }
}
