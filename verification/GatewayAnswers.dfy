/**
What the gateway answers to a write, read off the replica lists and the replies: when it
tries again, whom the second attempt addresses, and which answers are successes.
*/
module GatewayAnswers {
  import opened Sorting
  import opened Quorum

  /** The statuses that the original counts as an acknowledgement. */
  predicate Good(o: Outcome) {
    o.Answered? && o.status in {200, 201, 202, 204}
  }

  function GoodFrom(replicas: seq<string>, reply: string -> Outcome): set<string> {
    set r | r in replicas && Good(reply(r))
  }

  lemma AckersAreGood(a: Attempt)
    ensures Ackers(a) == GoodFrom(a.replicas, a.reply)
  {
  }

  /** `p` is whom the first attempt addresses as primary: the first idle replica, unless primaries replicate. */
  ghost predicate AddressedFirst(c: Config, env: Env, p: string) {
    env.first != [] &&
    if c.primaryRepl || (forall r :: r in env.first ==> env.overloaded(r)) then p == env.first[0]
    else exists i :: 0 <= i < |env.first| && p == env.first[i] && !env.overloaded(env.first[i])
                     && forall j :: 0 <= j < i ==> env.overloaded(env.first[j])
  }

  /** Whom the first attempt posts to at all. */
  ghost predicate PostedFirst(c: Config, env: Env, r: string) {
    r in env.first && (c.primaryRepl ==> r == env.first[0])
  }

  /** The replica that stands first in `names` apart from `dead`. */
  ghost predicate FirstOther(names: seq<string>, dead: string, r: string) {
    exists i :: 0 <= i < |names| && names[i] == r && r != dead && forall j :: 0 <= j < i ==> names[j] == dead
  }

  /**
  `second` are the replicas of the second attempt, after a first one with primary `p`:
  the first other node of the search if primaries replicate, `p` is suspected, the epoch
  was bumped and there is such a node; otherwise the list read afresh.
  */
  ghost predicate AddressedSecond(c: Config, env: Env, p: string, second: seq<string>) {
    if c.primaryRepl && env.suspect && env.bumped && exists r :: r in env.search && r != p then
      |second| == 1 && FirstOther(env.search, p, second[0])
    else if c.primaryRepl && env.second != [] then second == [env.second[0]]
    else second == env.second
  }

  lemma {:induction false} FirstIdleExact(replicas: seq<string>, overloaded: string -> bool)
    ensures var i := FirstIdle(replicas, overloaded);
            && (forall j :: 0 <= j < i ==> overloaded(replicas[j]))
            && (i < |replicas| ==> !overloaded(replicas[i]))
  {
    if replicas != [] && overloaded(replicas[0]) {
      FirstIdleExact(replicas[1..], overloaded);
      forall j | 0 <= j < FirstIdle(replicas, overloaded) ensures overloaded(replicas[j]) {
        assert j > 0 ==> replicas[j] == replicas[1..][j - 1];
      }
    }
  }

  lemma FirstAttemptAddresses(c: Config, env: Env, p: string)
    requires Distinct(env.first) && AddressedFirst(c, env, p)
    ensures var a := FirstAttempt(c, env);
            && a.reply == env.reply1 && a.replicas != [] && a.replicas[0] == p
            && forall r :: r in a.replicas <==> PostedFirst(c, env, r)
  {
    IdleFirstPermutes(env.first, env.overloaded);
    FirstIdleExact(env.first, env.overloaded);
    var i := FirstIdle(env.first, env.overloaded);
    if !c.primaryRepl && i < |env.first| {
      assert IdleFirst(env.first, env.overloaded)[0] == env.first[i];
    }
  }

  lemma {:induction false} SuccessorExact(names: seq<string>, dead: string)
    ensures |Successor(names, dead)| <= 1
    ensures Successor(names, dead) == [] <==> forall r :: r in names ==> r == dead
    ensures Successor(names, dead) != [] ==> FirstOther(names, dead, Successor(names, dead)[0])
  {
    if names != [] {
      assert names == [names[0]] + names[1..];
      if names[0] == dead {
        SuccessorExact(names[1..], dead);
        if Successor(names[1..], dead) != [] {
          var r := Successor(names[1..], dead)[0];
          var i :| 0 <= i < |names| - 1 && names[1..][i] == r && forall j :: 0 <= j < i ==> names[1..][j] == dead;
          assert names[i + 1] == r && r != dead && r in names;
          forall j | 0 <= j < i + 1 ensures names[j] == dead {
            assert j > 0 ==> names[j] == names[1..][j - 1];
          }
        }
      } else {
        assert names[0] in names;
      }
    }
  }

  lemma FirstOtherUnique(names: seq<string>, dead: string, r: string, q: string)
    requires FirstOther(names, dead, r) && FirstOther(names, dead, q)
    ensures r == q
  {
  }

  lemma SecondAttemptAddresses(c: Config, env: Env, p: string, second: seq<string>)
    requires AddressedFirst(c, env, p) && AddressedSecond(c, env, p, second)
    ensures SecondAttempt(c, env) == Attempt(second, env.reply2)
  {
    if c.primaryRepl {
      SuccessorExact(env.search, p);
      if Successor(env.search, p) != [] {
        assert Successor(env.search, p)[0] in env.search;
        if env.suspect && env.bumped {
          FirstOtherUnique(env.search, p, second[0], Successor(env.search, p)[0]);
        }
      }
    }
  }

  /** Someone is always addressed. */
  lemma AttemptsExist(c: Config, env: Env) returns (p: string, second: seq<string>)
    requires Distinct(env.first) && env.first != []
    ensures AddressedFirst(c, env, p) && AddressedSecond(c, env, p, second)
  {
    IdleFirstPermutes(env.first, env.overloaded);
    FirstIdleExact(env.first, env.overloaded);
    var i := FirstIdle(env.first, env.overloaded);
    p := if c.primaryRepl || i == |env.first| then env.first[0] else env.first[i];
    SuccessorExact(env.search, p);
    if c.primaryRepl && env.suspect && env.bumped && Successor(env.search, p) != [] {
      assert Successor(env.search, p)[0] in env.search;
      second := Successor(env.search, p);
    } else if c.primaryRepl && env.second != [] {
      second := [env.second[0]];
    } else {
      second := env.second;
    }
  }

  /** How many acknowledgements an answer needs. */
  function Needed(c: Config): int {
    if c.primaryRepl then 1 else c.w
  }

  /** What an attempt comes to that is not tried again. */
  ghost predicate Tells(c: Config, acks: int, primary: Outcome, response: Response) {
    response == if acks < Needed(c) || primary.Failed? then Reply(503) else Reply(primary.status)
  }

  /** The first attempt fell short, and its primary refused the epoch or did not answer. */
  ghost predicate TriesAgain(c: Config, acks: int, primary: Outcome) {
    acks < Needed(c) && (primary.Failed? || primary.status == 409)
  }

  function FirstAcks(c: Config, env: Env): set<string> {
    set r | r in env.first && (c.primaryRepl ==> r == env.first[0]) && Good(env.reply1(r))
  }

  /**
  The answer to every write: that of the first attempt, unless it fell short and its
  primary refused the epoch or was silent; then that of the second, which panics if
  there is nobody to address. With no replicas at all the first attempt does.
  */
  lemma AnswerExact(c: Config, env: Env, p: string, second: seq<string>)
    requires Distinct(env.first) && AddressedFirst(c, env, p) && AddressedSecond(c, env, p, second)
    ensures var response, acks := Verdict(c, Decisive(c, env)), |FirstAcks(c, env)|;
            if !TriesAgain(c, acks, env.reply1(p)) then Tells(c, acks, env.reply1(p), response)
            else if second == [] then response == Panic
            else Tells(c, |GoodFrom(second, env.reply2)|, env.reply2(second[0]), response)
  {
    FirstAttemptAddresses(c, env, p);
    SecondAttemptAddresses(c, env, p, second);
    var a := FirstAttempt(c, env);
    AckersAreGood(a);
    AckersAreGood(SecondAttempt(c, env));
    assert Ackers(a) == FirstAcks(c, env);
  }

  lemma EmptyRingPanics(c: Config, env: Env)
    requires env.first == []
    ensures Verdict(c, Decisive(c, env)) == Panic
  {
  }

  /**
  The gateway answers success if and only if the first attempt had its quorum with the
  primary, or it fell short with its primary at 409 or silent and the second attempt had
  a quorum with its own primary.
  */
  lemma SuccessExact(c: Config, env: Env, p: string, second: seq<string>)
    requires Distinct(env.first) && AddressedFirst(c, env, p) && AddressedSecond(c, env, p, second)
    ensures Succeeded(c, env) <==>
              || (|FirstAcks(c, env)| >= Needed(c) && Good(env.reply1(p)))
              || (&& |FirstAcks(c, env)| < Needed(c) && (env.reply1(p).Failed? || env.reply1(p).status == 409)
                  && second != [] && |GoodFrom(second, env.reply2)| >= Needed(c) && Good(env.reply2(second[0])))
  {
    AnswerExact(c, env, p, second);
  }

  /** The retry matters: one replica that is silent once and then takes the write. */
  lemma RetrySucceeds()
    ensures var c := Config(1, false);
            var env := Env(["a"], [], ["a"], _ => false, _ => Failed, _ => Answered(201), false, false);
            Verdict(c, Decisive(c, env)) == Reply(201)
  {
    var c := Config(1, false);
    var env := Env(["a"], [], ["a"], _ => false, _ => Failed, _ => Answered(201), false, false);
    assert "a" in env.first && env.first[0] == "a";
    AnswerExact(c, env, "a", ["a"]);
    assert FirstAcks(c, env) == {};
    assert GoodFrom(["a"], env.reply2) == {"a"};
  }
}
