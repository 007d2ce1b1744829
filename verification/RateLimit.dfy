/**
Token buckets per key with a background sweep (internal/ratelimit/ratelimit.go). Time is
in seconds; tokens, rate and time are reals, so rounding is not part of the model.
*/
module RateLimit {

  datatype BucketState = BucketState(tokens: real, lastTime: real)

  datatype Limits = Limits(rate: real, burst: int)

  function Full(l: Limits, now: real): BucketState {
    BucketState(l.burst as real, now)
  }

  /** The tokens that flow in between two times. */
  function Earned(l: Limits, from: real, now: real): real {
    (now - from) * l.rate
  }

  function Refilled(l: Limits, b: BucketState, now: real): BucketState {
    var t := b.tokens + Earned(l, b.lastTime, now);
    BucketState(if t < l.burst as real then t else l.burst as real, now)
  }

  /** Whether a call at `now` is admitted. */
  predicate Admits(l: Limits, b: BucketState, now: real) {
    Refilled(l, b, now).tokens >= 1.0
  }

  function Spent(l: Limits, b: BucketState, now: real): BucketState {
    var r := Refilled(l, b, now);
    if r.tokens >= 1.0 then r.(tokens := r.tokens - 1.0) else r
  }

  class Bucket {
    const limits: Limits
    var tokens: real
    var lastTime: real

    ghost function State(): BucketState
      reads this
    {
      BucketState(tokens, lastTime)
    }

    constructor (limits: Limits, now: real)
      ensures this.limits == limits && State() == Full(limits, now)
    {
      this.limits := limits;
      tokens, lastTime := limits.burst as real, now;
    }

    method Refill(now: real)
      modifies this
      ensures State() == Refilled(limits, old(State()), now)
    {
      var t := tokens + (now - lastTime) * limits.rate;
      tokens := if t < limits.burst as real then t else limits.burst as real;
      lastTime := now;
    }

    method Allow(now: real) returns (ok: bool)
      modifies this
      ensures ok == Admits(limits, old(State()), now)
      ensures State() == Spent(limits, old(State()), now)
    {
      Refill(now);
      if tokens < 1.0 {
        return false;
      }
      tokens := tokens - 1.0;
      ok := true;
    }

    method IsFull(now: real) returns (full: bool)
      modifies this
      ensures State() == Refilled(limits, old(State()), now)
      ensures full == (tokens >= limits.burst as real)
    {
      Refill(now);
      full := tokens >= limits.burst as real;
    }
  }

  // ----- exactness -----

  /** The bucket after calls at the given times. */
  function After(l: Limits, created: real, times: seq<real>): BucketState {
    if times == [] then Full(l, created)
    else Spent(l, After(l, created, times[..|times| - 1]), times[|times| - 1])
  }

  predicate Admitted(l: Limits, created: real, times: seq<real>, i: nat)
    requires i < |times|
  {
    Admits(l, After(l, created, times[..i]), times[i])
  }

  /** How many of the calls from..to (exclusive) were admitted. */
  function Admissions(l: Limits, created: real, times: seq<real>, from: nat, end: nat): nat
    requires from <= end <= |times|
  {
    if from == end then 0
    else Admissions(l, created, times, from, end - 1) + if Admitted(l, created, times, end - 1) then 1 else 0
  }

  /** The j-th reference point: a call, or for -1 the creation of the bucket. */
  function Since(created: real, times: seq<real>, j: int): real
    requires -1 <= j < |times|
  {
    if j < 0 then created else times[j]
  }

  /** What a full bucket at reference point j would have left for call n. */
  function Headroom(l: Limits, created: real, times: seq<real>, j: int, n: nat): real
    requires -1 <= j <= n < |times|
  {
    l.burst as real + Earned(l, Since(created, times, j), times[n])
      - Admissions(l, created, times, if j < 0 then 0 else j, n) as real
  }

  lemma EarnedAdds(l: Limits, s: real, a: real, b: real)
    ensures Earned(l, s, b) == Earned(l, s, a) + Earned(l, a, b)
  {
  }

  lemma HeadroomArithmetic(l: Limits, s: real, a: real, b: real, x: int, y: int, spent: bool)
    requires y == x + if spent then 1 else 0
    ensures l.burst as real + Earned(l, s, b) - y as real ==
            l.burst as real + Earned(l, s, a) - x as real + Earned(l, a, b) - if spent then 1.0 else 0.0
  {
    EarnedAdds(l, s, a, b);
  }

  /** From one call to the next every headroom moves by the refill and the spent token. */
  lemma HeadroomStep(l: Limits, created: real, times: seq<real>, j: int, n: nat)
    requires -1 <= j < n < |times| && 0 < n
    ensures Headroom(l, created, times, j, n) ==
            Headroom(l, created, times, j, n - 1) + Earned(l, times[n - 1], times[n])
              - (if Admitted(l, created, times, n - 1) then 1.0 else 0.0)
  {
    var from := if j < 0 then 0 else j;
    HeadroomArithmetic(l, Since(created, times, j), times[n - 1], times[n],
                       Admissions(l, created, times, from, n - 1), Admissions(l, created, times, from, n),
                       Admitted(l, created, times, n - 1));
  }

  /** ... and so do the tokens, except for the cap. */
  lemma {:induction false} TokensStep(l: Limits, created: real, times: seq<real>, n: nat)
    requires 0 < n < |times|
    ensures var before := Refilled(l, After(l, created, times[..n - 1]), times[n - 1]).tokens;
            var t := before - (if Admitted(l, created, times, n - 1) then 1.0 else 0.0)
                     + Earned(l, times[n - 1], times[n]);
            Refilled(l, After(l, created, times[..n]), times[n]).tokens ==
            if t < l.burst as real then t else l.burst as real
  {
    assert times[..n][..n - 1] == times[..n - 1];
  }

  /** The tokens at call n are the smallest headroom over all reference points. */
  lemma {:induction false} TokensAreLeastHeadroom(l: Limits, created: real, times: seq<real>, n: nat)
    returns (least: int)
    requires n < |times|
    ensures -1 <= least <= n
    ensures var tokens := Refilled(l, After(l, created, times[..n]), times[n]).tokens;
            && tokens == Headroom(l, created, times, least, n)
            && forall j :: -1 <= j <= n ==> tokens <= Headroom(l, created, times, j, n)
  {
    var tokens := Refilled(l, After(l, created, times[..n]), times[n]).tokens;
    assert Headroom(l, created, times, n, n) == l.burst as real;
    if n == 0 {
      assert times[..0] == [];
      least := if tokens == l.burst as real then 0 else -1;
    } else {
      least := TokensAreLeastHeadroom(l, created, times, n - 1);
      TokensStep(l, created, times, n);
      HeadroomStep(l, created, times, least, n);
      forall j | -1 <= j < n ensures tokens <= Headroom(l, created, times, j, n) {
        HeadroomStep(l, created, times, j, n);
      }
      if tokens == l.burst as real {
        least := n;
      }
    }
  }

  /** Admitting call n would exceed burst + rate * elapsed admissions since reference point j. */
  predicate Exceeds(l: Limits, created: real, times: seq<real>, j: int, n: nat)
    requires -1 <= j <= n < |times|
  {
    (Admissions(l, created, times, if j < 0 then 0 else j, n) + 1) as real
      > l.burst as real + Earned(l, Since(created, times, j), times[n])
  }

  lemma ExceedsIsHeadroom(l: Limits, created: real, times: seq<real>, j: int, n: nat)
    requires -1 <= j <= n < |times|
    ensures Exceeds(l, created, times, j, n) <==> Headroom(l, created, times, j, n) < 1.0
  {
  }

  /**
  The token bucket is exact: a call is refused if and only if admitting it would make
  more than burst + rate * elapsed admissions since some earlier call, this call, or
  the creation of the bucket.
  */
  lemma AllowExact(l: Limits, created: real, times: seq<real>, n: nat)
    requires n < |times|
    ensures !Admitted(l, created, times, n) <==> exists j :: -1 <= j <= n && Exceeds(l, created, times, j, n)
  {
    var least := TokensAreLeastHeadroom(l, created, times, n);
    ExceedsIsHeadroom(l, created, times, least, n);
    if j :| -1 <= j <= n && Exceeds(l, created, times, j, n) {
      ExceedsIsHeadroom(l, created, times, j, n);
    }
  }

  lemma {:induction false} AdmissionInBound(l: Limits, created: real, times: seq<real>, from: nat, n: nat, T: real)
    requires from <= n < |times| && l.rate >= 0.0 && times[n] - times[from] <= T
    requires Admitted(l, created, times, n)
    ensures (Admissions(l, created, times, from, n) + 1) as real <= l.burst as real + Earned(l, 0.0, T)
  {
    AllowExact(l, created, times, n);
    assert !Exceeds(l, created, times, from, n);
    EarnedMonotone(l, times[from], times[n], T);
  }

  /** Any stretch of calls of length T that admits anything admits at most burst + rate * T. */
  lemma {:induction false} WindowBound(l: Limits, created: real, times: seq<real>, from: nat, end: nat, T: real)
    requires from < end <= |times| && l.rate >= 0.0
    requires forall i, j :: 0 <= i < j < |times| ==> times[i] <= times[j]
    requires times[end - 1] - times[from] <= T
    ensures var n := Admissions(l, created, times, from, end);
            n == 0 || n as real <= l.burst as real + Earned(l, 0.0, T)
    decreases end
  {
    var n := end - 1;
    if Admitted(l, created, times, n) {
      AdmissionInBound(l, created, times, from, n, T);
    } else if from < n {
      assert times[n - 1] <= times[n];
      WindowBound(l, created, times, from, n, T);
    }
  }

  lemma EarnedMonotone(l: Limits, from: real, now: real, T: real)
    requires now - from <= T && l.rate >= 0.0
    ensures Earned(l, from, now) <= Earned(l, 0.0, T)
  {
  }
}
