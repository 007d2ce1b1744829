/** Incarnations: what stale gossip can and cannot do to a member. */
module MembershipProperties {
  import opened Wrappers
  import opened Membership

  function GossipSteps(es: seq<Gossip>): seq<Step> {
    if es == [] then [] else GossipSteps(es[..|es| - 1]) + [Gossiped(es[|es| - 1])]
  }

  /** The steps a received message is made of, with what other goroutines do between its sections. */
  function StepsOf(msg: Message, others: seq<Step>, more: seq<Step>): seq<Step> {
    match msg.kind
    case Ping => GossipSteps(msg.events) + others + more + [Drain]
    case Ack => GossipSteps(msg.events) + others + [Acked(msg.from)]
    case PingReq => GossipSteps(msg.events)
  }

  lemma {:induction false} EventsAreSteps(v: View, es: seq<Gossip>)
    ensures MergedAll(v, es) == After(v, GossipSteps(es))
  {
    if es != [] {
      EventsAreSteps(v, es[..|es| - 1]);
      AfterOneMore(v, GossipSteps(es[..|es| - 1]), Gossiped(es[|es| - 1]));
    }
  }

  lemma {:induction false} AfterOneMore(v: View, steps: seq<Step>, step: Step)
    ensures After(v, steps + [step]) == Next(After(v, steps), step)
  {
    assert (steps + [step])[..|steps|] == steps;
  }

  lemma {:induction false} AfterConcat(v: View, a: seq<Step>, b: seq<Step>)
    ensures After(v, a + b) == After(After(v, a), b)
  {
    if b == [] {
      assert a + b == a;
    } else {
      var n := |b| - 1;
      assert (a + b)[..|a + b| - 1] == a + b[..n];
      AfterConcat(v, a, b[..n]);
    }
  }

  /** Handling a message is running its steps, whatever comes in between. */
  lemma {:induction false} MessageIsSteps(v: View, msg: Message, others: seq<Step>, more: seq<Step>)
    ensures HandledAmid(v, msg, others, more) == After(v, StepsOf(msg, others, more))
  {
    var merge := GossipSteps(msg.events);
    EventsAreSteps(v, msg.events);
    AfterConcat(v, merge, others);
    AfterConcat(v, merge + others, more);
    AfterOneMore(v, merge + others + more, Drain);
    AfterOneMore(v, merge + others, Acked(msg.from));
  }

  /** The join fills in a missing HTTP address, and takes over its incarnation as it is. */
  predicate FillsHttp(v: View, step: Step, a: string) {
    && step.Gossiped? && step.e.kind == Join && step.e.addr == a && a != "" && step.e.ttl > 0
    && a in v.members && v.members[a].httpAddr == "" && step.e.httpAddr != ""
  }

  /** An incarnation drops exactly when a join with an older one fills in the HTTP address. */
  lemma IncarnationDrops(v: View, step: Step, a: string)
    requires a in v.members
    ensures a in Next(v, step).members
    ensures Next(v, step).members[a].incarnation < v.members[a].incarnation <==>
              FillsHttp(v, step, a) && step.e.incarnation < v.members[a].incarnation
  {
  }

  /** A member that is down comes back only as alive and with a strictly higher incarnation. */
  lemma RevivalRaises(v: View, step: Step, a: string)
    requires a in v.members
    ensures a in Next(v, step).members
    ensures var before, after := v.members[a], Next(v, step).members[a];
            && (before.status != Alive && after.status == Alive ==> after.incarnation > before.incarnation)
            && (before.status == Dead ==> after.status != Suspect)
  {
  }

  // ----- why a member is suspected and declared dead -----

  /** A probe of an alive member that nobody confirmed. */
  predicate StartsSuspicion(v: View, step: Step, a: string) {
    step.Unconfirmed? && step.target == a && a in v.members && v.members[a].status == Alive
  }

  /** A join about a known member, other than one that fills in its address, that is newer than what is known. */
  predicate NewerJoin(v: View, step: Step, a: string) {
    && step.Gossiped? && step.e.kind == Join && step.e.addr == a && a != "" && step.e.ttl > 0
    && !FillsHttp(v, step, a)
    && a in v.members && step.e.incarnation > v.members[a].incarnation
  }

  /** A death that is no older than what is known of the member. */
  predicate DeathNews(v: View, step: Step, a: string) {
    && step.Gossiped? && step.e.kind == Death && step.e.addr == a && a != "" && step.e.ttl > 0
    && a in v.members && step.e.incarnation >= v.members[a].incarnation
  }

  /** What ends a suspicion: an ack, a newer join, news of the death, or the timeout. */
  predicate EndsSuspicion(v: View, step: Step, a: string) {
    || step == Acked(a)
    || NewerJoin(v, step, a)
    || DeathNews(v, step, a)
    || (step.Checked? && step.addr == a && a in v.members && step.now - v.members[a].suspectAt > step.timeout)
  }

  /** Step i of the run started a suspicion of `a` that no later step has ended. */
  ghost predicate SuspectedBy(v: View, steps: seq<Step>, a: string, i: int) {
    && 0 <= i < |steps|
    && StartsSuspicion(After(v, steps[..i]), steps[i], a)
    && forall k :: i < k < |steps| ==> !EndsSuspicion(After(v, steps[..k]), steps[k], a)
  }

  ghost predicate IsSuspect(v: View, a: string) {
    a in v.members && v.members[a].status == Suspect
  }

  lemma SuspicionStep(v: View, step: Step, a: string)
    ensures IsSuspect(Next(v, step), a) <==>
              StartsSuspicion(v, step, a) || (IsSuspect(v, a) && !EndsSuspicion(v, step, a))
    ensures StartsSuspicion(v, step, a) ==> Next(v, step).members[a].suspectAt == step.now
    ensures IsSuspect(v, a) && !EndsSuspicion(v, step, a) ==>
              Next(v, step).members[a].suspectAt == v.members[a].suspectAt
  {
  }

  /** One more step: the suspicion goes on, or this step starts it. */
  lemma {:induction false} SuspectedByOneMore(v: View, steps: seq<Step>, a: string, i: int)
    requires steps != []
    ensures var n := |steps| - 1;
            SuspectedBy(v, steps, a, i) <==>
              (if i == n then StartsSuspicion(After(v, steps[..n]), steps[n], a)
               else SuspectedBy(v, steps[..n], a, i) && !EndsSuspicion(After(v, steps[..n]), steps[n], a))
  {
    var n := |steps| - 1;
    assert forall k :: 0 <= k <= n ==> steps[..n][..k] == steps[..k];
  }

  /**
  Over every run from a table that does not suspect it: a member is a suspect, since time
  t0, if and only if a probe at t0 found it alive in the table and unreachable, and since
  then no ack, no newer join, no news of its death and no timeout has come.
  */
  lemma {:induction false} SuspicionExact(v: View, steps: seq<Step>, a: string)
    requires !IsSuspect(v, a)
    ensures IsSuspect(After(v, steps), a) <==> exists i :: SuspectedBy(v, steps, a, i)
    ensures forall i :: SuspectedBy(v, steps, a, i) ==>
              IsSuspect(After(v, steps), a) && After(v, steps).members[a].suspectAt == steps[i].now
  {
    if steps != [] {
      var n := |steps| - 1;
      var before := After(v, steps[..n]);
      SuspicionExact(v, steps[..n], a);
      SuspicionStep(before, steps[n], a);
      forall i ensures SuspectedBy(v, steps, a, i) ==>
                         IsSuspect(After(v, steps), a) && After(v, steps).members[a].suspectAt == steps[i].now {
        SuspectedByOneMore(v, steps, a, i);
      }
      if IsSuspect(After(v, steps), a) {
        if StartsSuspicion(before, steps[n], a) {
          SuspectedByOneMore(v, steps, a, n);
        } else {
          var i :| SuspectedBy(v, steps[..n], a, i);
          SuspectedByOneMore(v, steps, a, i);
        }
      }
    }
  }

  ghost predicate IsDead(v: View, a: string) {
    a in v.members && v.members[a].status == Dead
  }

  /** The newest queued event is the death of `a`, with its incarnation. */
  ghost predicate DeathQueued(v: View, a: string)
    requires a in v.members
  {
    v.pending != [] &&
    var e := v.pending[|v.pending| - 1];
    e.kind == Death && e.addr == a && e.incarnation == v.members[a].incarnation
  }

  lemma DeathStep(v: View, step: Step, a: string)
    requires !IsDead(v, a)
    ensures IsDead(Next(v, step), a) <==>
              || DeathNews(v, step, a)
              || (step.Checked? && step.addr == a && IsSuspect(v, a)
                  && step.now - v.members[a].suspectAt > step.timeout)
    ensures IsDead(Next(v, step), a) ==> DeathQueued(Next(v, step), a)
  {
  }

  /**
  Over every run from a table that does not suspect it: the next step declares a member
  dead if and only if it is news of the death no older than what is known, or a check
  more than the timeout after an unconfirmed probe that nothing has refuted since. The
  death is then queued with the member's incarnation.
  */
  lemma {:induction false} DeathExact(v: View, steps: seq<Step>, step: Step, a: string)
    requires !IsSuspect(v, a) && !IsDead(After(v, steps), a)
    ensures IsDead(After(v, steps + [step]), a) <==>
              || DeathNews(After(v, steps), step, a)
              || (step.Checked? && step.addr == a
                  && exists i :: SuspectedBy(v, steps, a, i) && step.now - steps[i].now > step.timeout)
    ensures IsDead(After(v, steps + [step]), a) ==> DeathQueued(After(v, steps + [step]), a)
  {
    SuspicionExact(v, steps, a);
    AfterOneMore(v, steps, step);
    DeathStep(After(v, steps), step, a);
  }

  // ----- news is passed on -----

  /** Among the events queued since `v` there is one about `a` with this incarnation. */
  ghost predicate PassedOn(v: View, v': View, a: string, incarnation: nat) {
    exists j :: |v.pending| <= j < |v'.pending| && v'.pending[j].addr == a && v'.pending[j].incarnation == incarnation
  }

  ghost predicate DeathPassedOn(v: View, v': View, a: string) {
    exists j :: |v.pending| <= j < |v'.pending| && v'.pending[j].addr == a && v'.pending[j].kind == Death
  }

  lemma PassedOnStays(v: View, w: View, v': View, a: string, incarnation: nat)
    requires |v.pending| <= |w.pending| && w.pending <= v'.pending
    ensures PassedOn(v, w, a, incarnation) ==> PassedOn(v, v', a, incarnation)
    ensures DeathPassedOn(v, w, a) ==> DeathPassedOn(v, v', a)
  {
    if j :| |v.pending| <= j < |w.pending| && w.pending[j].addr == a && w.pending[j].incarnation == incarnation {
      assert v'.pending[j] == w.pending[j];
    }
    if j :| |v.pending| <= j < |w.pending| && w.pending[j].addr == a && w.pending[j].kind == Death {
      assert v'.pending[j] == w.pending[j];
    }
  }

  /** Whatever one event changes in the table is queued as it now stands. */
  lemma EventPassedOn(v: View, e: Gossip, a: string)
    requires a in Merged(v, e).members
    ensures v.pending <= Merged(v, e).pending
    ensures a !in v.members || Merged(v, e).members[a] != v.members[a] ==>
              PassedOn(v, Merged(v, e), a, Merged(v, e).members[a].incarnation)
    ensures (a in v.members ==> v.members[a].status != Dead) && Merged(v, e).members[a].status == Dead ==>
              DeathPassedOn(v, Merged(v, e), a)
  {
    var v' := Merged(v, e);
    if a !in v.members || v'.members[a] != v.members[a] {
      assert v'.pending[|v.pending|].addr == a && v'.pending[|v.pending|].incarnation == v'.members[a].incarnation;
    }
  }

  /**
  Nothing a message teaches is kept back: if it introduced a member or changed what is
  known of it, an event with the member's present incarnation is queued, and if it made
  the member dead, a death.
  */
  lemma {:induction false} NewsIsRelayed(v: View, es: seq<Gossip>, a: string)
    requires a in MergedAll(v, es).members
    ensures v.pending <= MergedAll(v, es).pending
    ensures a !in v.members || MergedAll(v, es).members[a] != v.members[a] ==>
              PassedOn(v, MergedAll(v, es), a, MergedAll(v, es).members[a].incarnation)
    ensures (a in v.members ==> v.members[a].status != Dead) && MergedAll(v, es).members[a].status == Dead ==>
              DeathPassedOn(v, MergedAll(v, es), a)
  {
    if es != [] {
      var n := |es| - 1;
      var w, v' := MergedAll(v, es[..n]), MergedAll(v, es);
      EventPassedOn(w, es[n], a);
      MergesAppend(v, es[..n]);
      if a in w.members {
        NewsIsRelayed(v, es[..n], a);
        PassedOnStays(v, w, v', a, v'.members[a].incarnation);
      }
      PassedOnFrom(v, w, v', a, v'.members[a].incarnation);
    }
  }

  lemma {:induction false} MergesAppend(v: View, es: seq<Gossip>)
    ensures v.pending <= MergedAll(v, es).pending
  {
    if es != [] {
      MergesAppend(v, es[..|es| - 1]);
    }
  }

  lemma PassedOnFrom(v: View, w: View, v': View, a: string, incarnation: nat)
    requires |v.pending| <= |w.pending|
    ensures PassedOn(w, v', a, incarnation) ==> PassedOn(v, v', a, incarnation)
    ensures DeathPassedOn(w, v', a) ==> DeathPassedOn(v, v', a)
  {
  }

  // ----- incarnations over runs -----

  /** No step of the run fills in the HTTP address of `a`. */
  predicate Settled(v: View, steps: seq<Step>, a: string) {
    steps == [] ||
    (Settled(v, steps[..|steps| - 1], a) && !FillsHttp(After(v, steps[..|steps| - 1]), steps[|steps| - 1], a))
  }

  /** A member whose address is settled never loses incarnation, and revival costs one. */
  lemma {:induction false} IncarnationMonotone(v: View, steps: seq<Step>, a: string)
    requires a in v.members && Settled(v, steps, a)
    ensures a in After(v, steps).members
    ensures var before, after := v.members[a], After(v, steps).members[a];
            && after.incarnation >= before.incarnation
            && (before.status == Dead && after.status != Dead ==> after.incarnation > before.incarnation)
  {
    if steps != [] {
      var n := |steps| - 1;
      IncarnationMonotone(v, steps[..n], a);
      IncarnationDrops(After(v, steps[..n]), steps[n], a);
      if After(v, steps[..n]).members[a].status == Dead {
        RevivalRaises(After(v, steps[..n]), steps[n], a);
      }
    }
  }

  /** Every join about `a` in the run names an HTTP address, or none does. */
  predicate UniformJoins(steps: seq<Step>, a: string, named: bool) {
    forall i :: 0 <= i < |steps| && steps[i].Gossiped? && steps[i].e.kind == Join && steps[i].e.addr == a ==>
      (steps[i].e.httpAddr != "") == named
  }

  /** Two conditions a caller can check beforehand settle the address. */
  lemma {:induction false} UniformIsSettled(v: View, steps: seq<Step>, a: string, named: bool)
    requires a in v.members && UniformJoins(steps, a, named)
    requires named ==> v.members[a].httpAddr != ""
    ensures Settled(v, steps, a)
    ensures a in After(v, steps).members && (named ==> After(v, steps).members[a].httpAddr != "")
  {
    if steps != [] {
      UniformIsSettled(v, steps[..|steps| - 1], a, named);
    }
  }

  /** The gossip about `a` in the run is no newer than `incarnation`. */
  predicate NoNewer(steps: seq<Step>, a: string, incarnation: nat) {
    forall i :: 0 <= i < |steps| && steps[i].Gossiped? && steps[i].e.addr == a ==>
      steps[i].e.incarnation <= incarnation
  }

  /** No resurrection: gossip no newer than the death leaves a settled dead member exactly as it is. */
  lemma {:induction false} StaleGossipIgnored(v: View, steps: seq<Step>, a: string)
    requires a in v.members && v.members[a].status == Dead
    requires Settled(v, steps, a) && NoNewer(steps, a, v.members[a].incarnation)
    ensures a in After(v, steps).members && After(v, steps).members[a] == v.members[a]
  {
    if steps != [] {
      StaleGossipIgnored(v, steps[..|steps| - 1], a);
    }
  }

  predicate LiveJoin(step: Step, a: string) {
    step.Gossiped? && step.e.kind == Join && step.e.addr == a && a != "" && step.e.ttl > 0
  }

  /** The first join about `a` that names an HTTP address. */
  function FirstName(steps: seq<Step>, a: string): Option<Gossip> {
    if steps == [] then None
    else
      var before, last := FirstName(steps[..|steps| - 1], a), steps[|steps| - 1];
      if before.Some? then before
      else if LiveJoin(last, a) && last.e.httpAddr != "" then Some(last.e)
      else None
  }

  /** Some join about `a` is newer than the first one that names an address, and comes after it. */
  predicate NewerThanFirstName(steps: seq<Step>, a: string) {
    steps != [] &&
    var before, last := steps[..|steps| - 1], steps[|steps| - 1];
    || NewerThanFirstName(before, a)
    || (FirstName(before, a).Some? && LiveJoin(last, a) && last.e.incarnation > FirstName(before, a).value.incarnation)
  }

  /** What a table holds of a member that has stayed dead since it held `m`, under stale gossip. */
  function DeadEntry(m: Info, steps: seq<Step>, a: string): Info {
    if m.httpAddr == "" && FirstName(steps, a).Some? then
      m.(httpAddr := FirstName(steps, a).value.httpAddr, incarnation := FirstName(steps, a).value.incarnation)
    else m
  }

  /** `a` is dead at the start and after every step. */
  ghost predicate StaysDead(v: View, steps: seq<Step>, a: string) {
    IsDead(After(v, steps), a) && (steps == [] || StaysDead(v, steps[..|steps| - 1], a))
  }

  lemma {:induction false} DeadEntryStep(v: View, m: Info, steps: seq<Step>, a: string)
    requires steps != [] && m.status == Dead && NoNewer(steps, a, m.incarnation)
    requires a in v.members && v.members[a] == DeadEntry(m, steps[..|steps| - 1], a)
    ensures var before, last := steps[..|steps| - 1], steps[|steps| - 1];
            && a in Next(v, last).members
            && (Next(v, last).members[a].status != Dead <==>
                  m.httpAddr == "" && FirstName(before, a).Some? && LiveJoin(last, a)
                  && last.e.incarnation > FirstName(before, a).value.incarnation)
            && (Next(v, last).members[a].status == Dead ==> Next(v, last).members[a] == DeadEntry(m, steps, a))
  {
    FirstNameNamed(steps[..|steps| - 1], a);
  }

  lemma {:induction false} FirstNameNamed(steps: seq<Step>, a: string)
    ensures FirstName(steps, a).Some? ==> FirstName(steps, a).value.httpAddr != ""
  {
    if steps != [] {
      FirstNameNamed(steps[..|steps| - 1], a);
    }
  }

  /**
  When stale gossip resurrects: over every run of gossip no newer than a member's death,
  the member comes back if and only if its address was unknown, and after the first
  join that names one there is a join newer than that one.
  */
  lemma {:induction false} ResurrectionExact(v: View, steps: seq<Step>, a: string)
    requires a in v.members && v.members[a].status == Dead
    requires NoNewer(steps, a, v.members[a].incarnation)
    ensures StaysDead(v, steps, a) <==> !(v.members[a].httpAddr == "" && NewerThanFirstName(steps, a))
    ensures StaysDead(v, steps, a) ==> After(v, steps).members[a] == DeadEntry(v.members[a], steps, a)
  {
    if steps != [] {
      var n := |steps| - 1;
      ResurrectionExact(v, steps[..n], a);
      if StaysDead(v, steps[..n], a) {
        DeadEntryStep(After(v, steps[..n]), v.members[a], steps, a);
      }
    }
  }

  /** A new process whose one seed "a" stops answering; "a" was suspected, refuted and suspected again. */
  function SeedDies(): seq<Step> {
    [Unconfirmed("a", 0), Acked("a"), Unconfirmed("a", 1), Checked("a", 100, 10)]
  }

  /** Two joins that "a" sent before it was declared dead. */
  function LateJoins(): seq<Step> {
    [Gossiped(Gossip(Join, "a", "h", 9, 0)), Gossiped(Gossip(Join, "a", "h", 9, 1))]
  }

  lemma {:induction false} SeedIsDead(v: View)
    requires "a" in v.members && v.members["a"] == Info("", Alive, 0, 0)
    ensures "a" in After(v, SeedDies()).members
    ensures After(v, SeedDies()).members["a"] == Info("", Dead, 1, 1)
  {
    var s := SeedDies();
    assert s[..4][..3] == s[..3] && s[..3][..2] == s[..2] && s[..2][..1] == s[..1] && s[..1][..0] == s[..0];
    assert After(v, s[..0]) == v;
    assert After(v, s[..1]).members["a"] == Info("", Suspect, 0, 0);
    assert After(v, s[..2]).members["a"] == Info("", Alive, 0, 1);
    assert After(v, s[..3]).members["a"] == Info("", Suspect, 1, 1);
    assert s[..4] == s;
  }

  /**
  A run from a new process in which stale gossip resurrects a dead member: the first late
  join fills in the address and resets the incarnation, so the second one looks new.
  */
  lemma UnsettledResurrects()
    ensures var v := View(NewTable("self", "h0", ["a"]), []);
            var dead := After(v, SeedDies());
            && "a" in dead.members && dead.members["a"] == Info("", Dead, 1, 1)
            && NoNewer(LateJoins(), "a", 1)
            && "a" in After(dead, LateJoins()).members
            && After(dead, LateJoins()).members["a"].status == Alive
  {
    var v := View(NewTable("self", "h0", ["a"]), []);
    assert "a" in ["a"] && v.members["a"] == Info("", Alive, 0, 0);
    SeedIsDead(v);
    var dead, s := After(v, SeedDies()), LateJoins();
    assert s[..2][..1] == s[..1] && s[..1][..0] == s[..0] && s[..2] == s;
    assert After(dead, s[..0]) == dead;
    assert After(dead, s[..1]).members["a"] == Info("h", Dead, 1, 0);
  }
}
