/**
The circuit breaker of one node (internal/breaker/breaker.go). Times and the cooldown
are nanoseconds.
*/
module Breaker {

  datatype Status = Closed | Open | HalfOpen

  datatype BreakerState = BreakerState(status: Status, failures: nat, openedAt: int)

  datatype Config = Config(threshold: int, cooldown: int)

  datatype Event = AllowEvent(now: int) | SuccessEvent(now: int) | FailureEvent(now: int)

  /** Whether a call at `now` would be let through. */
  predicate Admits(c: Config, s: BreakerState, now: int) {
    s.status.Closed? || (s.status.Open? && now - s.openedAt >= c.cooldown)
  }

  function AfterEvent(c: Config, s: BreakerState, e: Event): BreakerState {
    match e
    case AllowEvent(now) =>
      if s.status.Open? && now - s.openedAt >= c.cooldown then s.(status := HalfOpen) else s
    case SuccessEvent(_) => s.(failures := 0, status := Closed)
    case FailureEvent(now) =>
      if s.status.HalfOpen? || s.failures + 1 >= c.threshold then BreakerState(Open, 0, now)
      else s.(failures := s.failures + 1)
  }

  class Breaker {
    const config: Config
    var status: Status
    var failures: nat
    var openedAt: int

    ghost function State(): BreakerState
      reads this
    {
      BreakerState(status, failures, openedAt)
    }

    constructor (threshold: int, cooldown: int)
      ensures config == Config(threshold, cooldown)
      ensures status == Closed && failures == 0
    {
      config := Config(threshold, cooldown);
      status, failures, openedAt := Closed, 0, 0;
    }

    method Allow(now: int) returns (ok: bool)
      modifies this
      ensures ok == Admits(config, old(State()), now)
      ensures State() == AfterEvent(config, old(State()), AllowEvent(now))
    {
      match status {
        case Closed =>
          ok := true;
        case Open =>
          if now - openedAt >= config.cooldown {
            status := HalfOpen;
            return true;
          }
          ok := false;
        case HalfOpen =>
          ok := false;
      }
    }

    method Success(ghost now: int)
      modifies this
      ensures State() == AfterEvent(config, old(State()), SuccessEvent(now))
    {
      failures := 0;
      status := Closed;
    }

    method Failure(now: int)
      modifies this
      ensures State() == AfterEvent(config, old(State()), FailureEvent(now))
    {
      failures := failures + 1;
      if status == HalfOpen || failures >= config.threshold {
        status := Open;
        openedAt := now;
        failures := 0;
      }
    }
  }

  // ----- runs -----

  function After(c: Config, s: BreakerState, es: seq<Event>): BreakerState {
    if es == [] then s
    else AfterEvent(c, After(c, s, es[..|es| - 1]), es[|es| - 1])
  }

  /** The times of the admitted calls of a run. */
  function Admissions(c: Config, s: BreakerState, es: seq<Event>): seq<int> {
    if es == [] then []
    else
      var before, e := es[..|es| - 1], es[|es| - 1];
      if e.AllowEvent? && Admits(c, After(c, s, before), e.now)
      then Admissions(c, s, before) + [e.now]
      else Admissions(c, s, before)
  }

  ghost predicate InOrder(start: int, es: seq<Event>) {
    && (forall i :: 0 <= i < |es| ==> start <= es[i].now)
    && (forall i, j :: 0 <= i < j < |es| ==> es[i].now <= es[j].now)
  }

  ghost predicate NoSuccess(es: seq<Event>) {
    forall i :: 0 <= i < |es| ==> !es[i].SuccessEvent?
  }

  function Last(start: int, admitted: seq<int>): int {
    if admitted == [] then start else admitted[|admitted| - 1]
  }

  /** Each admission is at least a cooldown after the one before it, the first after the start. */
  predicate Spaced(start: int, cooldown: int, admitted: seq<int>) {
    admitted == [] ||
    var before := admitted[..|admitted| - 1];
    Spaced(start, cooldown, before) && admitted[|admitted| - 1] - Last(start, before) >= cooldown
  }

  /**
  After the breaker opened at `start`, and until a success, each admission comes at
  least one cooldown after the opening and after the admission before it, whatever
  failures arrive late.
  */
  lemma {:induction false} AdmissionsSpaced(c: Config, s: BreakerState, start: int, es: seq<Event>)
    requires s.status.Open? && s.openedAt == start
    requires InOrder(start, es) && NoSuccess(es)
    ensures Spaced(start, c.cooldown, Admissions(c, s, es))
    ensures var s', last := After(c, s, es), Last(start, Admissions(c, s, es));
            && !s'.status.Closed?
            && (s'.status.Open? ==> s'.openedAt >= last)
            && (if es == [] then last == start else last <= es[|es| - 1].now)
  {
    if es != [] {
      var n := |es| - 1;
      AdmissionsSpaced(c, s, start, es[..n]);
      assert n > 0 ==> es[n - 1].now <= es[n].now;
    }
  }

  /** Two admissions of a spaced run are a cooldown apart for each step between them. */
  lemma {:induction false} SpacedPairs(start: int, cooldown: int, admitted: seq<int>, i: int, j: int)
    requires Spaced(start, cooldown, admitted) && -1 <= i <= j < |admitted|
    ensures admitted != [] && j >= 0 ==>
              admitted[j] - (if i < 0 then start else admitted[i]) >= (j - i) * cooldown
    decreases |admitted|
  {
    if i < j {
      var n := |admitted| - 1;
      if j < n {
        SpacedPairs(start, cooldown, admitted[..n], i, j);
      } else {
        SpacedPairs(start, cooldown, admitted[..n], i, n - 1);
        assert (n - i) * cooldown == (n - 1 - i) * cooldown + cooldown;
      }
    }
  }

  lemma MulMonotone(a: int, b: int, d: int)
    requires a <= b && d > 0
    ensures a * d <= b * d
  {
  }

  lemma {:induction false} QuotientBound(k: int, d: int, T: int)
    requires d > 0 && k * d <= T
    ensures k <= T / d
  {
    var q := T / d;
    assert T < q * d + d;
    if q + 1 <= k {
      MulMonotone(q + 1, k, d);
    }
  }

  /** A breaker that opened admits at most one call per cooldown until a success. */
  lemma {:induction false} AdmissionBound(c: Config, s: BreakerState, start: int, es: seq<Event>, T: int)
    requires c.cooldown > 0 && s.status.Open? && s.openedAt == start
    requires InOrder(start, es) && NoSuccess(es)
    requires T >= 0 && (es != [] ==> es[|es| - 1].now <= start + T)
    ensures |Admissions(c, s, es)| <= T / c.cooldown
  {
    var admitted := Admissions(c, s, es);
    AdmissionsSpaced(c, s, start, es);
    if admitted != [] {
      SpacedPairs(start, c.cooldown, admitted, -1, |admitted| - 1);
      QuotientBound(|admitted|, c.cooldown, T);
    }
  }

  /** ... and any part of that stretch of length T at most one more. */
  lemma {:induction false} AdmissionBoundWithin(c: Config, s: BreakerState, start: int, es: seq<Event>, i: nat,
                                                j: nat, T: int)
    requires c.cooldown > 0 && s.status.Open? && s.openedAt == start
    requires InOrder(start, es) && NoSuccess(es)
    requires i <= j < |Admissions(c, s, es)|
    requires Admissions(c, s, es)[j] - Admissions(c, s, es)[i] <= T
    ensures j - i + 1 <= 1 + T / c.cooldown
  {
    AdmissionsSpaced(c, s, start, es);
    SpacedPairs(start, c.cooldown, Admissions(c, s, es), i, j);
    QuotientBound(j - i, c.cooldown, T);
  }

  // ----- probing -----

  lemma {:induction false} HalfOpenAdmitsNone(c: Config, s: BreakerState, es: seq<Event>)
    requires s.status.HalfOpen? && forall i :: 0 <= i < |es| ==> es[i].AllowEvent?
    ensures After(c, s, es) == s && Admissions(c, s, es) == []
  {
    if es != [] {
      HalfOpenAdmitsNone(c, s, es[..|es| - 1]);
    }
  }

  /**
  An open breaker lets a call through as soon as the cooldown is over, and exactly one:
  until that probe is answered all others are refused. Success closes the breaker,
  failure starts a new cooldown.
  */
  lemma {:induction false} SingleProbe(c: Config, s: BreakerState, probe: int, es: seq<Event>, answer: int, next: int)
    requires s.status.Open? && forall i :: 0 <= i < |es| ==> es[i].AllowEvent?
    ensures Admits(c, s, probe) <==> probe >= s.openedAt + c.cooldown
    ensures Admits(c, s, probe) ==>
              var waiting := After(c, AfterEvent(c, s, AllowEvent(probe)), es);
              && Admissions(c, AfterEvent(c, s, AllowEvent(probe)), es) == []
              && Admits(c, AfterEvent(c, waiting, SuccessEvent(answer)), next)
              && (Admits(c, AfterEvent(c, waiting, FailureEvent(answer)), next) <==> next >= answer + c.cooldown)
  {
    if Admits(c, s, probe) {
      HalfOpenAdmitsNone(c, AfterEvent(c, s, AllowEvent(probe)), es);
    }
  }

  // ----- when it opens -----

  /** The failures since the last success. */
  function Consecutive(es: seq<Event>): nat {
    if es == [] then 0
    else
      match es[|es| - 1]
      case AllowEvent(_) => Consecutive(es[..|es| - 1])
      case SuccessEvent(_) => 0
      case FailureEvent(_) => Consecutive(es[..|es| - 1]) + 1
  }

  /**
  A new breaker stays closed as long as it has not met `threshold` consecutive
  failures, and opens with the failure that makes them so many.
  */
  lemma {:induction false} OpensAtThreshold(c: Config, es: seq<Event>)
    requires c.threshold >= 1
    requires forall k :: 0 <= k < |es| ==> Consecutive(es[..k]) < c.threshold
    ensures var s := After(c, BreakerState(Closed, 0, 0), es);
            if Consecutive(es) < c.threshold then s.status == Closed && s.failures == Consecutive(es)
            else s == BreakerState(Open, 0, es[|es| - 1].now)
  {
    if es != [] {
      var before := es[..|es| - 1];
      forall k | 0 <= k < |before| ensures Consecutive(before[..k]) < c.threshold {
        assert before[..k] == es[..k];
      }
      OpensAtThreshold(c, before);
    }
  }

  // ----- answers that come late -----

  /** The times of the failures of a run, in order. */
  function FailureTimes(es: seq<Event>): seq<int> {
    if es == [] then []
    else
      var before, e := FailureTimes(es[..|es| - 1]), es[|es| - 1];
      if e.FailureEvent? then before + [e.now] else before
  }

  /** How many failures it takes; a threshold below one acts like one. */
  function Needed(c: Config): (n: nat)
    ensures n >= 1
  {
    if c.threshold < 1 then 1 else c.threshold
  }

  /** The failures that have not opened the breaker again. */
  function Pending(c: Config, n: nat): (p: nat)
    ensures p <= n && p < Needed(c)
  {
    n % Needed(c)
  }

  lemma PendingStep(c: Config, n: nat)
    ensures Pending(c, n + 1) == if Pending(c, n) + 1 == Needed(c) then 0 else Pending(c, n) + 1
  {
    var d := Needed(c);
    var q, r := n / d, n % d;
    assert n == q * d + r;
    if r + 1 == d {
      assert n + 1 == (q + 1) * d + 0;
      Remainder(n + 1, q + 1, 0, d);
    } else {
      assert n + 1 == q * d + (r + 1);
      Remainder(n + 1, q, r + 1, d);
    }
  }

  lemma Remainder(n: nat, q: nat, r: nat, d: nat)
    requires d > 0 && n == q * d + r && r < d
    ensures n % d == r
  {
    var q', r' := n / d, n % d;
    assert q' * d + r' == n && 0 <= r' < d;
    if q' < q {
      MulMonotone(q' + 1, q, d);
    } else if q < q' {
      MulMonotone(q + 1, q', d);
    }
  }

  /**
  Failures that arrive while the breaker is open: each completed group of `threshold` of
  them opens it anew, so the cooldown runs from the last failure of the last completed
  group, and calls that are refused on the way change nothing.
  */
  lemma {:induction false} LateFailures(c: Config, start: int, es: seq<Event>)
    requires forall i :: 0 <= i < |es| ==> !es[i].SuccessEvent?
    requires Admissions(c, BreakerState(Open, 0, start), es) == []
    ensures var s', times := After(c, BreakerState(Open, 0, start), es), FailureTimes(es);
            var completed := |times| - Pending(c, |times|);
            && s'.status == Open
            && s'.failures == Pending(c, |times|)
            && s'.openedAt == if completed == 0 then start else times[completed - 1]
  {
    if es != [] {
      var n := |es| - 1;
      LateFailures(c, start, es[..n]);
      if es[n].FailureEvent? {
        PendingStep(c, |FailureTimes(es[..n])|);
      }
    }
  }

  /**
  A success erases the past, whenever it comes: from then on the breaker admits exactly
  what a new one would.
  */
  lemma {:induction false} SuccessErases(c: Config, s: BreakerState, now: int, es: seq<Event>)
    ensures Admissions(c, AfterEvent(c, s, SuccessEvent(now)), es) == Admissions(c, BreakerState(Closed, 0, 0), es)
    ensures var r, r' := After(c, AfterEvent(c, s, SuccessEvent(now)), es), After(c, BreakerState(Closed, 0, 0), es);
            r.status == r'.status && r.failures == r'.failures && (r.status != Closed ==> r.openedAt == r'.openedAt)
  {
    if es != [] {
      SuccessErases(c, s, now, es[..|es| - 1]);
    }
  }
}
