/**
The per-key buckets of `Map` and their sweep (internal/ratelimit/ratelimit.go), with
each call of `Allow` and each sweep taken as one step.
*/
module LimiterMap {
  import opened Wrappers
  import opened RateLimit

  type Table = map<string, BucketState>

  /** The bucket a call meets; a missing one is created full. */
  function BucketFor(l: Limits, m: Table, key: string, created: real): BucketState {
    if key in m then m[key] else Full(l, created)
  }

  function AllowedAt(l: Limits, m: Table, key: string, created: real, now: real): Table {
    m[key := Spent(l, BucketFor(l, m, key, created), now)]
  }

  predicate Sweepable(l: Limits, b: BucketState, now: real) {
    Refilled(l, b, now).tokens >= l.burst as real
  }

  /** A sweep reads the clock once for each key. */
  type Readings = string -> real

  function Swept(l: Limits, m: Table, at: Readings): Table {
    map k | k in m && !Sweepable(l, m[k], at(k)) :: Refilled(l, m[k], at(k))
  }

  /** A sweep that has not come to the keys `todo` yet. */
  function PartlySwept(l: Limits, m: Table, at: Readings, todo: set<string>): Table {
    map k | k in m && (k in todo || !Sweepable(l, m[k], at(k))) ::
      if k in todo then m[k] else Refilled(l, m[k], at(k))
  }

  lemma SweepEnds(l: Limits, m: Table, at: Readings)
    ensures PartlySwept(l, m, at, m.Keys) == m
    ensures PartlySwept(l, m, at, {}) == Swept(l, m, at)
  {
  }

  /** Visiting one more key. */
  lemma SweepStep(l: Limits, m: Table, at: Readings, todo: set<string>, k: string)
    requires todo <= m.Keys && k in todo
    ensures var part := PartlySwept(l, m, at, todo);
            && k in part && part[k] == m[k]
            && PartlySwept(l, m, at, todo - {k}) ==
               if Sweepable(l, part[k], at(k)) then part - {k} else part[k := Refilled(l, part[k], at(k))]
  {
  }

  class LimiterMap {
    const limits: Limits
    var m: map<string, Bucket>

    ghost predicate Valid()
      reads this, m.Values
    {
      && (forall k :: k in m ==> m[k].limits == limits)
      && (forall j, k :: j in m && k in m && j != k ==> m[j] != m[k])
    }

    ghost function Buckets(): Table
      reads this, m.Values
    {
      map k | k in m :: m[k].State()
    }

    constructor (limits: Limits)
      ensures Valid() && Buckets() == map[] && this.limits == limits
    {
      this.limits := limits;
      m := map[];
    }

    method Allow(key: string, created: real, now: real) returns (ok: bool)
      requires Valid()
      modifies this, m.Values
      ensures Valid() && fresh(m.Values - old(m.Values))
      ensures ok == Admits(limits, BucketFor(limits, old(Buckets()), key, created), now)
      ensures Buckets() == AllowedAt(limits, old(Buckets()), key, created, now)
    {
      ghost var before := Buckets();
      if key !in m {
        var b := new Bucket(limits, created);
        m := m[key := b];
      }
      ghost var met := BucketFor(limits, before, key, created);
      assert Buckets() == before[key := met];
      ok := m[key].Allow(now);
      assert Buckets() == before[key := Spent(limits, met, now)];
    }

    /** Ranges over the map in any order, deleting the full buckets. */
    method Sweep(at: Readings)
      requires Valid()
      modifies this, m.Values
      ensures Valid() && m.Values <= old(m.Values)
      ensures Buckets() == Swept(limits, old(Buckets()), at)
    {
      ghost var before := Buckets();
      var todo := m.Keys;
      assert todo == before.Keys;
      SweepEnds(limits, before, at);
      while todo != {}
        invariant Valid() && m.Values <= old(m.Values)
        invariant todo <= m.Keys && todo <= before.Keys
        invariant Buckets() == PartlySwept(limits, before, at, todo)
        decreases todo
      {
        var k := Pick(todo);
        SweepNext(k, at, before, todo);
        todo := todo - {k};
      }
    }

    method SweepNext(key: string, at: Readings, ghost before: Table, ghost todo: set<string>)
      requires Valid() && key in todo && todo <= m.Keys && todo <= before.Keys
      requires Buckets() == PartlySwept(limits, before, at, todo)
      modifies this, m[key]
      ensures Valid() && m.Values <= old(m.Values) && m.Keys + {key} == old(m.Keys)
      ensures Buckets() == PartlySwept(limits, before, at, todo - {key})
    {
      SweepStep(limits, before, at, todo, key);
      SweepKey(key, at(key));
    }

    method SweepKey(key: string, now: real)
      requires Valid() && key in m
      modifies this, m[key]
      ensures Valid() && m.Values <= old(m.Values) && m.Keys + {key} == old(m.Keys)
      ensures Buckets() ==
              if Sweepable(limits, old(Buckets())[key], now) then old(Buckets()) - {key}
              else old(Buckets())[key := Refilled(limits, old(Buckets())[key], now)]
    {
      var b := m[key];
      var full := b.IsFull(now);
      if full {
        m := m - {key};
      }
    }
  }

  // ----- the sweep cannot be observed -----

  /** `now` is the last clock reading of a call or a sweep. */
  datatype Op =
    | AllowOp(key: string, created: real, now: real)
    | SweepOp(start: real, at: Readings, now: real)

  function StartOf(op: Op): real {
    if op.AllowOp? then op.created else op.start
  }

  function AfterOp(l: Limits, m: Table, op: Op): Table {
    match op
    case AllowOp(key, created, now) => AllowedAt(l, m, key, created, now)
    case SweepOp(_, at, _) => Swept(l, m, at)
  }

  /** The table after a run; with `sweeping` off the sweeps do nothing. */
  function AfterOps(l: Limits, ops: seq<Op>, sweeping: bool): Table {
    if ops == [] then map[]
    else
      var before, op := AfterOps(l, ops[..|ops| - 1], sweeping), ops[|ops| - 1];
      if op.SweepOp? && !sweeping then before else AfterOp(l, before, op)
  }

  /** What the callers of `Allow` are told. */
  function Answers(l: Limits, ops: seq<Op>, sweeping: bool): seq<bool> {
    if ops == [] then []
    else
      var before, op := ops[..|ops| - 1], ops[|ops| - 1];
      if op.SweepOp? then Answers(l, before, sweeping)
      else Answers(l, before, sweeping) +
           [Admits(l, BucketFor(l, AfterOps(l, before, sweeping), op.key, op.created), op.now)]
  }

  ghost predicate WithinSweep(op: Op)
    requires op.SweepOp?
  {
    forall k :: op.start <= op.at(k) <= op.now
  }

  /** One call or sweep is over when the next one starts. */
  ghost predicate InOrder(ops: seq<Op>) {
    && (forall i, j :: 0 <= i < j < |ops| ==> ops[i].now <= StartOf(ops[j]))
    && (forall i :: 0 <= i < |ops| ==> StartOf(ops[i]) <= ops[i].now)
    && (forall i :: 0 <= i < |ops| && ops[i].SweepOp? ==> WithinSweep(ops[i]))
  }

  /** Refilling on the way does not matter, in either direction of the flow. */
  lemma RefillComposes(l: Limits, b: BucketState, s: real, t: real)
    requires b.tokens <= l.burst as real && b.lastTime <= s <= t
    ensures Refilled(l, Refilled(l, b, s), t) == Refilled(l, b, t)
  {
    EarnedAdds(l, b.lastTime, s, t);
    EarnedSign(l, b.lastTime, s);
    EarnedSign(l, s, t);
  }

  lemma EarnedSign(l: Limits, from: real, now: real)
    requires from <= now
    ensures if l.rate >= 0.0 then Earned(l, from, now) >= 0.0 else Earned(l, from, now) <= 0.0
  {
  }

  /** From the clock on, the two buckets cannot be told apart. */
  ghost predicate Alike(l: Limits, b: BucketState, c: BucketState, clock: real) {
    && b.lastTime <= clock && c.lastTime <= clock
    && b.tokens <= l.burst as real && c.tokens <= l.burst as real
    && Refilled(l, b, clock) == Refilled(l, c, clock)
  }

  lemma AlikeLater(l: Limits, b: BucketState, c: BucketState, clock: real, t: real)
    requires Alike(l, b, c, clock) && clock <= t
    ensures Alike(l, b, c, t)
  {
    RefillComposes(l, b, clock, t);
    RefillComposes(l, c, clock, t);
  }

  lemma FullAlikeLater(l: Limits, c: BucketState, clock: real, t: real)
    requires l.rate >= 0.0 && Alike(l, Full(l, clock), c, clock) && clock <= t
    ensures Alike(l, Full(l, t), c, t)
  {
    AlikeLater(l, Full(l, clock), c, clock, t);
    EarnedSign(l, clock, t);
  }

  /**
  How the swept table stands to the one that is never swept. What is swept is full, as
  a new bucket is; a table that drains has nothing to sweep.
  */
  ghost predicate Simulates(l: Limits, swept: Table, kept: Table, clock: real) {
    && swept.Keys <= kept.Keys
    && (forall k :: k in swept ==> Alike(l, swept[k], kept[k], clock))
    && (if l.rate >= 0.0 then
          forall k :: k in kept && k !in swept ==> Alike(l, Full(l, clock), kept[k], clock)
        else
          swept.Keys == kept.Keys && forall k :: k in swept ==> swept[k].tokens < l.burst as real)
  }

  lemma {:induction false} SimulatesLater(l: Limits, swept: Table, kept: Table, clock: real, t: real)
    requires Simulates(l, swept, kept, clock) && clock <= t
    ensures Simulates(l, swept, kept, t)
  {
    forall k | k in swept ensures Alike(l, swept[k], kept[k], t) {
      AlikeLater(l, swept[k], kept[k], clock, t);
    }
    if l.rate >= 0.0 {
      forall k | k in kept && k !in swept ensures Alike(l, Full(l, t), kept[k], t) {
        FullAlikeLater(l, kept[k], clock, t);
      }
    }
  }

  /** A call gets the same answer from both tables, and they stay related. */
  lemma {:induction false} AllowSimulates(l: Limits, swept: Table, kept: Table, clock: real,
                                          key: string, created: real, now: real)
    requires (l.burst >= 1 || l.rate >= 0.0) && Simulates(l, swept, kept, clock) && clock <= created <= now
    ensures Refilled(l, BucketFor(l, swept, key, created), now) == Refilled(l, BucketFor(l, kept, key, created), now)
    ensures Simulates(l, AllowedAt(l, swept, key, created, now), AllowedAt(l, kept, key, created, now), now)
  {
    SimulatesLater(l, swept, kept, clock, created);
    SimulatesLater(l, swept, kept, clock, now);
    if key in kept {
      AlikeLater(l, BucketFor(l, swept, key, created), kept[key], created, now);
    }
  }

  /** What a sweep makes of one bucket. */
  lemma SweptAlike(l: Limits, b: BucketState, c: BucketState, at: real, now: real)
    requires Alike(l, b, c, at) && at <= now
    ensures Alike(l, Refilled(l, b, at), c, now)
    ensures l.rate >= 0.0 && Sweepable(l, b, at) ==> Alike(l, Full(l, now), c, now)
    ensures l.rate < 0.0 && b.tokens < l.burst as real ==> Refilled(l, b, at).tokens < l.burst as real
  {
    RefillComposes(l, b, at, at);
    AlikeLater(l, Refilled(l, b, at), c, at, now);
    EarnedSign(l, b.lastTime, at);
    if l.rate >= 0.0 && Sweepable(l, b, at) {
      assert Refilled(l, b, at) == Full(l, at);
      FullAlikeLater(l, c, at, now);
    }
  }

  lemma {:induction false} SweepSimulates(l: Limits, swept: Table, kept: Table, clock: real, at: Readings, now: real)
    requires Simulates(l, swept, kept, clock) && clock <= now
    requires forall k :: clock <= at(k) <= now
    ensures Simulates(l, Swept(l, swept, at), kept, now)
  {
    SimulatesLater(l, swept, kept, clock, now);
    forall k | k in swept
      ensures Alike(l, Refilled(l, swept[k], at(k)), kept[k], now)
      ensures l.rate >= 0.0 && Sweepable(l, swept[k], at(k)) ==> Alike(l, Full(l, now), kept[k], now)
      ensures l.rate < 0.0 ==> Refilled(l, swept[k], at(k)).tokens < l.burst as real
    {
      AlikeLater(l, swept[k], kept[k], clock, at(k));
      SweptAlike(l, swept[k], kept[k], at(k), now);
    }
  }

  lemma {:induction false} SweepsSimulated(l: Limits, ops: seq<Op>)
    requires (l.burst >= 1 || l.rate >= 0.0) && InOrder(ops)
    ensures Answers(l, ops, true) == Answers(l, ops, false)
    ensures ops != [] ==>
              Simulates(l, AfterOps(l, ops, true), AfterOps(l, ops, false), ops[|ops| - 1].now)
  {
    if ops != [] {
      var n := |ops| - 1;
      var before, op := ops[..n], ops[n];
      SweepsSimulated(l, before);
      var clock := if n == 0 then StartOf(op) else before[n - 1].now;
      var swept, kept := AfterOps(l, before, true), AfterOps(l, before, false);
      match op {
        case AllowOp(key, created, now) =>
          AllowSimulates(l, swept, kept, clock, key, created, now);
        case SweepOp(_, at, now) =>
          SweepSimulates(l, swept, kept, clock, at, now);
      }
    }
  }

  /** A burst below one admits nothing, swept or not. */
  lemma {:induction false} NothingAdmitted(l: Limits, ops: seq<Op>, sweeping: bool)
    requires l.burst < 1
    ensures forall i :: 0 <= i < |Answers(l, ops, sweeping)| ==> !Answers(l, ops, sweeping)[i]
    ensures |Answers(l, ops, sweeping)| == |Answers(l, ops, true)|
  {
    if ops != [] {
      NothingAdmitted(l, ops[..|ops| - 1], sweeping);
    }
  }

  /**
  The sweep is unobservable: whatever the rate and the burst, every caller gets the
  answer it would get if no bucket were ever deleted.
  */
  lemma {:induction false} SweepUnobservable(l: Limits, ops: seq<Op>)
    requires InOrder(ops)
    ensures Answers(l, ops, true) == Answers(l, ops, false)
  {
    if l.burst >= 1 {
      SweepsSimulated(l, ops);
    } else {
      NothingAdmitted(l, ops, true);
      NothingAdmitted(l, ops, false);
    }
  }

  // ----- every key has a bucket of its own -----

  /** The times of the calls for one key. */
  function TimesOf(ops: seq<Op>, key: string): seq<real> {
    if ops == [] then []
    else
      var before, op := TimesOf(ops[..|ops| - 1], key), ops[|ops| - 1];
      if op.AllowOp? && op.key == key then before + [op.now] else before
  }

  /** When the bucket of a key is made: at its first call. */
  function CreatedAt(ops: seq<Op>, key: string): real {
    if ops == [] then 0.0
    else
      var before, op := ops[..|ops| - 1], ops[|ops| - 1];
      if op.AllowOp? && op.key == key && TimesOf(before, key) == [] then op.created else CreatedAt(before, key)
  }

  lemma {:induction false} OwnBucket(l: Limits, ops: seq<Op>, key: string)
    ensures var m, times := AfterOps(l, ops, false), TimesOf(ops, key);
            && (key in m <==> times != [])
            && (times != [] ==> m[key] == After(l, CreatedAt(ops, key), times))
  {
    if ops != [] {
      var n := |ops| - 1;
      var times := TimesOf(ops[..n], key);
      OwnBucket(l, ops[..n], key);
      assert (times + [ops[n].now])[..|times|] == times;
      assert times == [] ==> After(l, CreatedAt(ops, key), times) == Full(l, CreatedAt(ops, key));
    }
  }

  /**
  End to end: whatever is called for other keys and however often the map is swept, a
  call is answered as the token bucket of its own key alone would answer it.
  */
  lemma {:induction false} KeysIndependent(l: Limits, ops: seq<Op>)
    requires ops != [] && ops[|ops| - 1].AllowOp? && InOrder(ops)
    ensures var key, answers := ops[|ops| - 1].key, Answers(l, ops, true);
            var times := TimesOf(ops, key);
            && times != [] && answers != []
            && answers[|answers| - 1] == Admitted(l, CreatedAt(ops, key), times, |times| - 1)
  {
    var n := |ops| - 1;
    var key := ops[n].key;
    var before := TimesOf(ops[..n], key);
    SweepUnobservable(l, ops);
    OwnBucket(l, ops[..n], key);
    assert TimesOf(ops, key)[..|before|] == before;
    assert before == [] ==> After(l, CreatedAt(ops, key), before) == Full(l, CreatedAt(ops, key));
  }

  // ----- what a sweep leaves -----

  /** The bucket that the calls for one key alone would have, refilled at time t. */
  function OwnBucketAt(l: Limits, ops: seq<Op>, key: string, t: real): BucketState {
    Refilled(l, After(l, CreatedAt(ops, key), TimesOf(ops, key)), t)
  }

  lemma SweptOne(l: Limits, swept: Table, kept: Table, clock: real, at: Readings, k: string)
    requires Simulates(l, swept, kept, clock) && clock <= at(k)
    ensures k in Swept(l, swept, at) <==> k in kept && Refilled(l, kept[k], at(k)).tokens < l.burst as real
    ensures k in Swept(l, swept, at) ==> Swept(l, swept, at)[k] == Refilled(l, kept[k], at(k))
  {
    if k in swept {
      AlikeLater(l, swept[k], kept[k], clock, at(k));
    } else if k in kept {
      FullAlikeLater(l, kept[k], clock, at(k));
      EarnedSign(l, at(k), at(k));
    }
  }

  /**
  A sweep really frees memory, and nothing that is in use: over every run in time order, a
  key has a bucket after a sweep if and only if it has been called and the bucket of its
  own calls is not full when the sweep comes to it; that bucket is then its own.
  */
  lemma {:induction false} SweepLeavesExact(l: Limits, ops: seq<Op>, k: string)
    requires (l.burst >= 1 || l.rate >= 0.0) && InOrder(ops) && ops != [] && ops[|ops| - 1].SweepOp?
    ensures var m, own := AfterOps(l, ops, true), OwnBucketAt(l, ops, k, ops[|ops| - 1].at(k));
            && (k in m <==> TimesOf(ops, k) != [] && own.tokens < l.burst as real)
            && (k in m ==> m[k] == own)
  {
    var n := |ops| - 1;
    var before, op := ops[..n], ops[n];
    SweepsSimulated(l, before);
    OwnBucket(l, before, k);
    assert WithinSweep(op);
    var clock := if n == 0 then op.start else before[n - 1].now;
    SweptOne(l, AfterOps(l, before, true), AfterOps(l, before, false), clock, op.at, k);
  }
}
