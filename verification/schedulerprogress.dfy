/** Progress of the scan thread: when it has time, everything that was asked
    for is taken up, and only power-off ends it. */
module SchedulerProgress {
  import opened Base
  import opened Scheduler
  import opened SchedulerRuns

  /** The thread moves, and does not see power_off behind a scan. */
  predicate Quiet(e: Event) {
    e.Tick? && !(e.connects && e.powerOff)
  }

  ghost predicate AllQuiet(events: seq<Event>) {
    forall k :: 0 <= k < |events| ==> Quiet(events[k])
  }

  /** The length that was read is no more than what is queued: only the thread itself takes requests out. */
  predicate Counting(s: State) {
    s.pc.Counted? ==> s.pc.length <= |s.queue|
  }

  lemma {:induction false} RunKeepsCounting(s: State, events: seq<Event>)
    requires Counting(s)
    ensures Counting(Run(s, events))
    decreases |events|
  {
    if events != [] {
      RunKeepsCounting(Next(s, events[0]), events[1..]);
    }
  }

  /** Neither stopped nor about to be. */
  ghost predicate Working(s: State) {
    Counting(s) && !s.pc.Stopped? && !HasPowerOff(s.queue) && !HasPowerOff(s.garray)
  }

  predicate NothingToDo(s: State) {
    s.queue == [] && s.garray == []
  }

  /** A bound on the moves that are needed. */
  function Work(s: State): nat {
    4 * |s.queue| + 2 * |s.garray| + if s.pc.Top? then 1 else 0
  }

  lemma InsertedSize(a: seq<Request>, x: Request)
    requires !HasPowerOff(a) && !x.scanType.PowerOff?
    ensures |Inserted(a, x)| <= |a| + 1 && !HasPowerOff(Inserted(a, x))
  {
  }

  lemma TailHasNoPowerOff(a: seq<Request>)
    requires a != [] && !HasPowerOff(a)
    ensures !a[0].scanType.PowerOff? && !HasPowerOff(a[1..])
  {
    forall i | 0 <= i < |a[1..]| ensures !a[1..][i].scanType.PowerOff? {
      assert a[1..][i] == a[i + 1];
    }
  }

  /** Every quiet move of a working thread that has something to do gets on with it. */
  lemma QuietMove(s: State, e: Event)
    requires Working(s) && Quiet(e)
    ensures var s' := Next(s, e);
            && Working(s') && (NothingToDo(s) ==> NothingToDo(s')) && (!NothingToDo(s) ==> Work(s') < Work(s))
  {
    if s.pc.Counted? && s.pc.length == 0 && s.garray != [] {
      TailHasNoPowerOff(s.garray);
    } else if s.pc.Counted? && s.queue != [] {
      TailHasNoPowerOff(s.queue);
      InsertedSize(s.garray, s.queue[0]);
    }
  }

  lemma {:induction false} Drains(s: State, events: seq<Event>)
    requires Working(s) && AllQuiet(events) && (NothingToDo(s) || |events| >= Work(s))
    ensures Working(Run(s, events)) && NothingToDo(Run(s, events))
    decreases |events|
  {
    if events != [] {
      assert Quiet(events[0]);
      QuietMove(s, events[0]);
      assert forall k :: 0 <= k < |events[1..]| ==> events[1..][k] == events[k + 1];
      Drains(Next(s, events[0]), events[1..]);
    }
  }

  lemma {:induction false} QuietArrivals(before: seq<Event>, more: seq<Event>)
    requires AllQuiet(more)
    ensures Arrivals(before + more) == Arrivals(before)
    decreases |before| + |more|
  {
    if before != [] {
      assert (before + more)[1..] == before[1..] + more;
      QuietArrivals(before[1..], more);
    } else if more != [] {
      assert before + more == more && Quiet(more[0]);
      assert forall k :: 0 <= k < |more[1..]| ==> more[1..][k] == more[k + 1];
      assert [] + more[1..] == more[1..];
      QuietArrivals([], more[1..]);
    } else {
      assert before + more == [];
    }
  }

  /** From every state that the thread can get into and in which it is not
      stopped and no POWEROFF waits, enough quiet moves empty queue and array,
      whether the database can be opened or not. Then, for each storage, every
      request that ever arrived was taken up or overtaken by a later one with a
      smaller scan type that was, and the last one taken up is the last that
      arrived. The thread is not stopped. */
  lemma EverythingIsTakenUp(events: seq<Event>, more: seq<Event>, storage: Storage)
    requires var s := Run(INIT, events);
             !s.pc.Stopped? && !HasPowerOff(s.queue) && !HasPowerOff(s.garray)
             && |more| > 4 * |s.queue| + 2 * |s.garray|
    requires AllQuiet(more)
    ensures var t := Run(INIT, events + more);
            && t.queue == [] && t.garray == [] && !t.pc.Stopped?
            && AccountsFor(Of(t.taken, storage), Of(Arrivals(events), storage))
  {
    var s, t := Run(INIT, events), Run(INIT, events + more);
    RunKeepsCounting(INIT, events);
    RunConcat(INIT, events, more);
    Drains(s, more);
    NothingDropped(INIT, events + more);
    QuietArrivals(events, more);
    StartHealthy(storage);
    NothingIsLost(INIT, events + more, storage);
    assert t.moved + [] == t.moved && [] + [] + Arrivals(events) == Arrivals(events);
    assert Of(t.taken, storage) + [] == Of(t.taken, storage);
  }

  /** The part of this that one looks at first: the last request of a storage is taken up last. */
  lemma LastArrivalIsTakenUp(events: seq<Event>, more: seq<Event>, storage: Storage)
    requires var s := Run(INIT, events);
             !s.pc.Stopped? && !HasPowerOff(s.queue) && !HasPowerOff(s.garray)
             && |more| > 4 * |s.queue| + 2 * |s.garray|
    requires AllQuiet(more) && Of(Arrivals(events), storage) != []
    ensures var done, asked := Of(Run(INIT, events + more).taken, storage), Of(Arrivals(events), storage);
            done != [] && done[|done| - 1] == asked[|asked| - 1]
  {
    EverythingIsTakenUp(events, more, storage);
  }

  // ----- What ends the thread -----

  function PowerOffs(a: seq<Request>): nat {
    if a == [] then 0 else (if a[0].scanType.PowerOff? then 1 else 0) + PowerOffs(a[1..])
  }

  lemma {:induction false} PowerOffsConcat(a: seq<Request>, b: seq<Request>)
    ensures PowerOffs(a + b) == PowerOffs(a) + PowerOffs(b)
  {
    if a == [] {
      assert a + b == b;
    } else {
      assert (a + b)[1..] == a[1..] + b;
      PowerOffsConcat(a[1..], b);
    }
  }

  lemma {:induction false} PowerOffsReplaced(a: seq<Request>, x: Request)
    requires !x.scanType.PowerOff?
    ensures PowerOffs(Replaced(a, x)) == PowerOffs(a)
  {
    if a != [] {
      assert Replaced(a, x)[1..] == Replaced(a[1..], x);
      PowerOffsReplaced(a[1..], x);
    }
  }

  lemma PowerOffsInserted(a: seq<Request>, x: Request)
    ensures PowerOffs(Inserted(a, x)) == PowerOffs(a) + PowerOffs([x])
  {
    PowerOffsConcat([x], a);
    PowerOffsConcat(a, [x]);
    if !x.scanType.PowerOff? {
      PowerOffsReplaced(a, x);
    }
  }

  /** power_off was seen behind the scan of one of the requests taken up. */
  ghost predicate SawPowerOff(s: State) {
    exists k :: 0 <= k < |s.fates| && s.fates[k].connects && s.fates[k].powerOff
  }

  ghost predicate StoppedRightly(s: State) {
    && PowerOffs(s.garray) <= PowerOffs(s.moved)
    && (s.pc.Stopped? <==> PowerOffs(s.garray) < PowerOffs(s.moved) || SawPowerOff(s))
  }

  lemma FatesGrow(s: State, e: Event)
    requires e.Tick? && s.pc == Counted(0) && s.garray != [] && !s.garray[0].scanType.PowerOff?
    ensures SawPowerOff(Next(s, e)) <==> SawPowerOff(s) || (e.connects && e.powerOff)
  {
    var fates := Next(s, e).fates;
    assert fates[|s.fates|] == Fate(e.connects, e.powerOff);
    assert forall k :: 0 <= k < |s.fates| ==> fates[k] == s.fates[k];
  }

  lemma StoppedStep(s: State, e: Event)
    requires StoppedRightly(s)
    ensures StoppedRightly(Next(s, e))
  {
    if Inserts(s, e) {
      PowerOffsInserted(s.garray, s.queue[0]);
      PowerOffsConcat(s.moved, [s.queue[0]]);
    } else if e.Tick? && s.pc == Counted(0) && s.garray != [] {
      if !s.garray[0].scanType.PowerOff? {
        FatesGrow(s, e);
      }
    }
  }

  lemma {:induction false} StaysStoppedRightly(s: State, events: seq<Event>)
    requires StoppedRightly(s)
    ensures StoppedRightly(Run(s, events))
    decreases |events|
  {
    if events != [] {
      StoppedStep(s, events[0]);
      StaysStoppedRightly(Next(s, events[0]), events[1..]);
    }
  }

  /** On every run the thread is stopped if and only if a POWEROFF was taken out
      of the array again, or power_off was seen behind a scan: in particular no
      failed connect ends it. */
  lemma StoppedIff(events: seq<Event>)
    ensures var s := Run(INIT, events);
            s.pc.Stopped? <==> PowerOffs(s.garray) < PowerOffs(s.moved) || SawPowerOff(s)
  {
    StaysStoppedRightly(INIT, events);
  }
}
