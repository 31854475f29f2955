/** The polls of `power_off` and of the memory-card state by which a running
    scan notices that it has to stop. */
module Polls {
  import opened Base

  /** The answers to the polls of a run, one after the other; all later ones are no. */
  type Script = seq<bool>

  predicate Yes(polls: Script, t: nat) {
    t < |polls| && polls[t]
  }

  /** One of the polls from number `now` up to, not including, `later` is answered yes. */
  ghost predicate Hit(polls: Script, now: nat, later: nat) {
    exists t :: now <= t < later && Yes(polls, t)
  }

  /** None of these polls is answered yes. */
  ghost predicate NoYes(polls: Script, now: nat, later: nat)
    requires now <= later
    decreases later
  {
    now == later || (!Yes(polls, later - 1) && NoYes(polls, now, later - 1))
  }

  /** Of these polls the last one is answered yes if the run `stopped`, and none otherwise. */
  ghost predicate StopsAtFirst(polls: Script, now: nat, later: nat, stopped: bool) {
    if stopped then now < later && NoYes(polls, now, later - 1) && Yes(polls, later - 1)
    else now <= later && NoYes(polls, now, later)
  }

  /** The polls from `now` on, of which there are no more than those before
      `finish`: all are made, unless one is answered yes, and that is the last. */
  ghost predicate EndsBy(polls: Script, now: nat, later: nat, finish: nat, stopped: bool) {
    StopsAtFirst(polls, now, later, stopped) && later <= finish && (!stopped ==> later == finish)
  }

  lemma {:induction false} NoYesConcat(polls: Script, now: nat, mid: nat, later: nat)
    requires now <= mid <= later && NoYes(polls, now, mid) && NoYes(polls, mid, later)
    ensures NoYes(polls, now, later)
    decreases later
  {
    if mid < later {
      NoYesConcat(polls, now, mid, later - 1);
    }
  }

  /** Going on after polls that were all answered no. */
  lemma GoOn(polls: Script, now: nat, mid: nat, later: nat, stopped: bool)
    requires StopsAtFirst(polls, now, mid, false) && StopsAtFirst(polls, mid, later, stopped)
    ensures StopsAtFirst(polls, now, later, stopped)
  {
    NoYesConcat(polls, now, mid, if stopped then later - 1 else later);
  }

  lemma {:induction false} NoYesIff(polls: Script, now: nat, later: nat)
    requires now <= later
    ensures NoYes(polls, now, later) <==> !Hit(polls, now, later)
    decreases later
  {
    if now < later {
      NoYesIff(polls, now, later - 1);
      assert Yes(polls, later - 1) ==> Hit(polls, now, later);
    }
  }

  /** A run that makes all its polls up to `finish` unless it stops is stopped
      exactly if one of them is answered yes. */
  lemma StoppedIffHit(polls: Script, now: nat, later: nat, finish: nat, stopped: bool)
    requires EndsBy(polls, now, later, finish, stopped)
    ensures stopped <==> Hit(polls, now, later)
    ensures stopped <==> Hit(polls, now, finish)
  {
    NoYesIff(polls, now, later);
    assert stopped ==> Yes(polls, later - 1);
  }

  /** How many polls from `now` on, and before `finish`, are answered no in a row. */
  function Noes(polls: Script, now: nat, finish: nat): (n: nat)
    requires now <= finish
    ensures now + n <= finish
    decreases finish - now
  {
    if now == finish || Yes(polls, now) then 0 else 1 + Noes(polls, now + 1, finish)
  }

  /** Going on after polls that were all answered no. */
  lemma {:induction false} NoesGoOn(polls: Script, now: nat, mid: nat, finish: nat)
    requires now <= mid <= finish && NoYes(polls, now, mid)
    ensures Noes(polls, now, finish) == mid - now + Noes(polls, mid, finish)
    decreases mid
  {
    if now < mid {
      NoesGoOn(polls, now, mid - 1, finish);
    }
  }

  /** A pass makes exactly the polls that are answered no and, if it is stopped, one more. */
  lemma PassPolls(polls: Script, now: nat, later: nat, finish: nat, stopped: bool)
    requires EndsBy(polls, now, later, finish, stopped)
    ensures now <= finish
    ensures Noes(polls, now, finish) == if stopped then later - 1 - now else finish - now
  {
    NoesGoOn(polls, now, if stopped then later - 1 else later, finish);
  }

  /** Where a pass ends whose last poll, if it is not stopped, is the one before `finish`. */
  function PassEnd(polls: Script, now: nat, finish: nat): (later: nat)
    requires now <= finish
    ensures later <= finish
  {
    var n := Noes(polls, now, finish);
    if now + n == finish then finish else now + n + 1
  }

  lemma EndIsPassEnd(polls: Script, now: nat, later: nat, finish: nat, stopped: bool)
    requires EndsBy(polls, now, later, finish, stopped)
    ensures now <= finish && later == PassEnd(polls, now, finish)
  {
    PassPolls(polls, now, later, finish, stopped);
  }

  /** Such a pass there is for every script. */
  lemma PassStops(polls: Script, now: nat, finish: nat) returns (stopped: bool)
    requires now <= finish
    ensures EndsBy(polls, now, PassEnd(polls, now, finish), finish, stopped)
  {
    var n := Noes(polls, now, finish);
    stopped := now + n < finish;
    NoesAreNo(polls, now, finish);
  }

  lemma {:induction false} NoesAreNo(polls: Script, now: nat, finish: nat)
    requires now <= finish
    ensures var n := Noes(polls, now, finish);
            NoYes(polls, now, now + n) && (now + n < finish ==> Yes(polls, now + n))
    decreases finish - now
  {
    if now < finish && !Yes(polls, now) {
      NoesAreNo(polls, now + 1, finish);
      NoYesConcat(polls, now, now + 1, now + Noes(polls, now, finish));
    }
  }

  method SeesPowerOff(polls: Script, now: nat) returns (b: bool, later: nat)
    ensures b == Yes(polls, now) && later == now + 1 && StopsAtFirst(polls, now, later, b)
  {
    b, later := now < |polls| && polls[now], now + 1;
  }

  /** `mmc_state != MOUNTED && storage == EXTERNAL`: of interest for the external storage only. */
  method SeesCardRemoved(polls: Script, now: nat, storage: Storage) returns (b: bool, later: nat)
    ensures b == (storage.External? && Yes(polls, now))
    ensures later == now + (if storage.External? then 1 else 0) && StopsAtFirst(polls, now, later, b)
  {
    if storage.External? {
      b, later := now < |polls| && polls[now], now + 1;
    } else {
      b, later := false, now;
    }
  }

  /** The two tests made before a directory is opened: whether to stop, and the next poll. */
  function SeesStop(polls: Script, now: nat, storage: Storage): (r: (bool, nat))
    ensures EndsBy(polls, now, r.1, now + 1 + (if storage.External? then 1 else 0), r.0)
  {
    if Yes(polls, now) then (true, now + 1)
    else if storage.External? then (Yes(polls, now + 1), now + 2)
    else (false, now + 1)
  }
}
