/** What holds of the scan thread over every run: any script of arrivals and
    thread moves, starting from empty queues. */
module SchedulerRuns {
  import opened Base
  import opened Scheduler

  function Arrivals(events: seq<Event>): seq<Request> {
    if events == [] then []
    else (if events[0].Arrive? then [events[0].request] else []) + Arrivals(events[1..])
  }

  /** For one storage: what was taken up so far followed by what is pending. */
  function Served(s: State, storage: Storage): seq<Request> {
    Of(s.taken, storage) + Of(s.garray, storage)
  }

  /** The move that inserts the oldest queued request into the array. */
  predicate Inserts(s: State, e: Event) {
    e.Tick? && s.pc.Counted? && !(s.pc.length == 0 && s.garray != []) && s.queue != []
  }

  /** An insertion works on the pending requests of its storage alone. */
  lemma ServedByInsertion(s: State, e: Event, storage: Storage)
    requires Inserts(s, e)
    ensures var s', x := Next(s, e), s.queue[0];
            && s'.moved == s.moved + [x] && s'.queue == s.queue[1..] && s'.taken == s.taken
            && Of(s'.moved, storage)
               == (if Matches(x, storage) then Of(s.moved, storage) + [x] else Of(s.moved, storage))
            && Of(s'.garray, storage)
               == if Matches(x, storage) then Inserted(Of(s.garray, storage), x) else Of(s.garray, storage)
  {
    OfSnoc(s.moved, s.queue[0], storage);
    OfInserted(s.garray, s.queue[0], storage);
  }

  /** Nothing else changes what is served for a storage. */
  lemma ServedOtherwise(s: State, e: Event, storage: Storage)
    requires !Inserts(s, e)
    ensures var s' := Next(s, e);
            && s'.moved == s.moved && Served(s', storage) == Served(s, storage)
            && (Of(s'.garray, storage) == Of(s.garray, storage)
                || (Of(s.garray, storage) != [] && Of(s'.garray, storage) == Of(s.garray, storage)[1..]))
  {
    if e.Tick? && s.pc.Counted? && s.garray != [] && s.pc.length == 0 {
      HeadFirst(s.garray, storage);
      OfSnoc(s.taken, s.garray[0], storage);
      if Matches(s.garray[0], storage) {
        ConcatAssoc(Of(s.taken, storage), [s.garray[0]], Of(s.garray[1..], storage));
      }
    }
  }

  lemma HeadFirst(a: seq<Request>, storage: Storage)
    requires a != []
    ensures Of(a, storage) == if Matches(a[0], storage) then [a[0]] + Of(a[1..], storage) else Of(a[1..], storage)
    ensures Of(a, storage) == Of(a[1..], storage)
         || (Of(a, storage) != [] && Of(a[1..], storage) == Of(a, storage)[1..])
  {
  }

  /** Everything ever pushed is still queued or was moved into the array, in order. */
  lemma {:induction false} NothingDropped(s: State, events: seq<Event>)
    ensures var t := Run(s, events); t.moved + t.queue == s.moved + s.queue + Arrivals(events)
    decreases |events|
  {
    if events != [] {
      var s' := Next(s, events[0]);
      NothingDropped(s', events[1..]);
      HistoryStep(s, events[0]);
      ConcatAssoc(s.moved + s.queue, if events[0].Arrive? then [events[0].request] else [], Arrivals(events[1..]));
    }
  }

  // ----- Order of the pending array, and the last request wins -----

  ghost predicate Ordered(s: State, storage: Storage) {
    && Nondecreasing(Of(s.garray, storage))
    && PowerOffFirst(s.garray)
  }

  lemma OrderedStep(s: State, e: Event, storage: Storage)
    requires Ordered(s, storage)
    ensures Ordered(Next(s, e), storage)
  {
    if Inserts(s, e) {
      OrderedInsertion(s, e, storage);
      InsertedKeepsPowerOff(s.garray, s.queue[0]);
    } else {
      ServedOtherwise(s, e, storage);
      assert Next(s, e).garray == s.garray || (s.garray != [] && Next(s, e).garray == s.garray[1..]);
    }
  }

  lemma OrderedInsertion(s: State, e: Event, storage: Storage)
    requires Nondecreasing(Of(s.garray, storage)) && Inserts(s, e)
    ensures Nondecreasing(Of(Next(s, e).garray, storage))
  {
    ServedByInsertion(s, e, storage);
    if Matches(s.queue[0], storage) {
      OfMembers(s.garray, storage);
      InsertedOrder(Of(s.garray, storage), s.queue[0], storage);
    }
  }

  /** On every run the pending requests of each storage are in nondecreasing
      scan-type order and POWEROFF requests come before all others. */
  lemma {:induction false} PendingIsOrdered(s: State, events: seq<Event>, storage: Storage)
    requires Ordered(s, storage)
    ensures Ordered(Run(s, events), storage)
    decreases |events|
  {
    if events != [] {
      OrderedStep(s, events[0], storage);
      PendingIsOrdered(Next(s, events[0]), events[1..], storage);
    }
  }

  /** `served` accounts for all of `moved`: it is empty only together with it,
      ends with the same request, and every request is in it or was overtaken
      by a later one with a smaller scan type that is. */
  ghost predicate AccountsFor(served: seq<Request>, moved: seq<Request>) {
    && (served == [] <==> moved == [])
    && (moved != [] ==> served[|served| - 1] == moved[|moved| - 1])
    && (forall r :: r in served ==> r in moved)
    && (forall i :: 0 <= i < |moved| ==> Covered(served, moved, i))
  }

  ghost predicate Covered(served: seq<Request>, moved: seq<Request>, i: nat)
    requires i < |moved|
  {
    moved[i] in served ||
    exists j :: i < j < |moved| && moved[j] in served && moved[j].scanType.Rank() < moved[i].scanType.Rank()
  }

  lemma AccountsForInsertion(
      taken: seq<Request>, pending: seq<Request>, moved: seq<Request>, x: Request, storage: Storage)
    requires AccountsFor(taken + pending, moved)
    requires Nondecreasing(pending) && OneStorage(pending, storage) && Matches(x, storage)
    ensures AccountsFor(taken + Inserted(pending, x), moved + [x])
  {
    var before, after := taken + pending, taken + Inserted(pending, x);
    var moved' := moved + [x];
    InsertedOrder(pending, x, storage);
    assert after[|after| - 1] == x;
    forall r | r in before ensures r in after || r.scanType.Rank() > x.scanType.Rank() {
      StaysOrBeaten(pending, x, r);
    }
    forall r | r in after ensures r in moved' {
      OnlyOldOrNew(pending, x, r);
    }
    forall i | 0 <= i < |moved'| ensures Covered(after, moved', i) {
      assert moved'[|moved|] == x && x in after;
      if i < |moved| {
        assert Covered(before, moved, i) && moved'[i] == moved[i];
        if moved[i] !in before {
          var j :| i < j < |moved| && moved[j] in before && moved[j].scanType.Rank() < moved[i].scanType.Rank();
          assert moved'[j] == moved[j];
        }
      }
    }
  }

  lemma StaysOrBeaten(pending: seq<Request>, x: Request, r: Request)
    requires !x.scanType.PowerOff?
    ensures r in pending ==> r in Inserted(pending, x) || r.scanType.Rank() > x.scanType.Rank()
  {
    if r in pending && BeatsSome(pending, x) {
      var i :| 0 <= i < |pending| && pending[i] == r;
      assert Replaced(pending, x)[i] == if Beats(x, r) then x else r;
    }
  }

  lemma OnlyOldOrNew(pending: seq<Request>, x: Request, r: Request)
    ensures r in Inserted(pending, x) ==> r in pending || r == x
  {
  }

  lemma AccountsStep(s: State, e: Event, storage: Storage)
    requires Ordered(s, storage) && AccountsFor(Served(s, storage), Of(s.moved, storage))
    ensures AccountsFor(Served(Next(s, e), storage), Of(Next(s, e).moved, storage))
  {
    if Inserts(s, e) {
      ServedByInsertion(s, e, storage);
      if Matches(s.queue[0], storage) {
        OfMembers(s.garray, storage);
        AccountsForInsertion(Of(s.taken, storage), Of(s.garray, storage), Of(s.moved, storage), s.queue[0], storage);
      }
    } else {
      ServedOtherwise(s, e, storage);
    }
  }

  /** No request is lost on any run: what is taken up and pending for a storage
      accounts for everything moved, and the most recent request comes last. */
  lemma {:induction false} NothingIsLost(s: State, events: seq<Event>, storage: Storage)
    requires Ordered(s, storage) && AccountsFor(Served(s, storage), Of(s.moved, storage))
    ensures AccountsFor(Served(Run(s, events), storage), Of(Run(s, events).moved, storage))
    decreases |events|
  {
    if events != [] {
      OrderedStep(s, events[0], storage);
      AccountsStep(s, events[0], storage);
      NothingIsLost(Next(s, events[0]), events[1..], storage);
    }
  }

  // ----- Streams in which an INVALID separates any two scans -----

  /** Every scan but the first request comes directly after an INVALID. */
  ghost predicate Alternating(b: seq<Request>) {
    forall i {:trigger b[i].scanType.IsScan()} :: 0 < i < |b| && b[i].scanType.IsScan() ==> b[i - 1].scanType.Invalid?
  }

  /** The served requests of a storage alternate too, no object appears twice,
      and a scan in first place is the first request there was. */
  ghost predicate Clean(served: seq<Request>, moved: seq<Request>) {
    && Alternating(served)
    && NoDup(served)
    && (served != [] ==> moved != [] && (served[0] == moved[0] || served[0].scanType.Invalid?))
  }

  lemma CleanAppend(before: seq<Request>, moved: seq<Request>, x: Request)
    requires AccountsFor(before, moved) && Clean(before, moved)
    requires Alternating(moved + [x]) && x !in moved
    ensures Clean(before + [x], moved + [x])
  {
    if moved != [] {
      assert (moved + [x])[|moved|] == x && (moved + [x])[|moved| - 1] == moved[|moved| - 1];
    }
  }

  /** With alternation a scan finds nothing to replace, and an INVALID at most one scan. */
  lemma FewToReplace(taken: seq<Request>, pending: seq<Request>, moved: seq<Request>, x: Request, storage: Storage)
    requires AccountsFor(taken + pending, moved) && Alternating(taken + pending)
    requires Nondecreasing(pending) && OneStorage(pending, storage) && Matches(x, storage)
    requires Alternating(moved + [x])
    ensures x.scanType.IsScan() ==> Kept(pending, x) == |pending|
    ensures |pending| - Kept(pending, x) <= 1
  {
    if x.scanType.IsScan() {
      LastPendingInvalid(taken, pending, moved, x);
      assert forall i :: 0 <= i < |pending| ==> pending[i].scanType.Rank() <= pending[|pending| - 1].scanType.Rank();
    } else if Kept(pending, x) + 1 < |pending| {
      BeatenSuffix(pending, x, storage, Kept(pending, x) + 1);
      NotTwoScans(taken, pending, Kept(pending, x));
    }
  }

  lemma LastPendingInvalid(taken: seq<Request>, pending: seq<Request>, moved: seq<Request>, x: Request)
    requires AccountsFor(taken + pending, moved) && Alternating(moved + [x]) && x.scanType.IsScan()
    ensures pending != [] ==> pending[|pending| - 1].scanType.Invalid?
  {
    if pending != [] {
      assert (taken + pending)[|taken + pending| - 1] == pending[|pending| - 1];
      assert (moved + [x])[|moved|] == x && (moved + [x])[|moved| - 1] == moved[|moved| - 1];
    }
  }

  lemma NotTwoScans(taken: seq<Request>, pending: seq<Request>, k: nat)
    requires Alternating(taken + pending) && k + 1 < |pending|
    ensures !(pending[k].scanType.IsScan() && pending[k + 1].scanType.IsScan())
  {
    var before := taken + pending;
    assert before[|taken| + k] == pending[k] && before[|taken| + k + 1] == pending[k + 1];
  }

  lemma CleanInsertion(taken: seq<Request>, pending: seq<Request>, moved: seq<Request>, x: Request, storage: Storage)
    requires AccountsFor(taken + pending, moved) && Clean(taken + pending, moved)
    requires Nondecreasing(pending) && OneStorage(pending, storage) && Matches(x, storage)
    requires Alternating(moved + [x]) && x !in moved
    ensures Clean(taken + Inserted(pending, x), moved + [x])
  {
    var before, k := taken + pending, Kept(pending, x);
    InsertedShape(pending, x, storage);
    FewToReplace(taken, pending, moved, x, storage);
    assert Repeat(x, 1) == [x];
    if k == |pending| {
      assert taken + (pending[..k] + [x]) == before + [x];
      CleanAppend(before, moved, x);
    } else {
      assert taken + (pending[..k] + [x]) == before[..|taken| + k] + [x];
    }
  }

  lemma CleanStep(s: State, e: Event, storage: Storage)
    requires Ordered(s, storage) && AccountsFor(Served(s, storage), Of(s.moved, storage))
    requires Clean(Served(s, storage), Of(s.moved, storage))
    requires Alternating(Of(Next(s, e).moved, storage)) && NoDup(Next(s, e).moved)
    ensures Clean(Served(Next(s, e), storage), Of(Next(s, e).moved, storage))
  {
    if Inserts(s, e) {
      var x := s.queue[0];
      ServedByInsertion(s, e, storage);
      if Matches(x, storage) {
        NewObject(s.moved, x, storage);
        OfMembers(s.garray, storage);
        CleanInsertion(Of(s.taken, storage), Of(s.garray, storage), Of(s.moved, storage), x, storage);
      }
    } else {
      ServedOtherwise(s, e, storage);
    }
  }

  lemma NewObject(moved: seq<Request>, x: Request, storage: Storage)
    requires NoDup(moved + [x])
    ensures x !in Of(moved, storage)
  {
    OfMembers(moved, storage);
    assert forall i :: 0 <= i < |moved| ==> (moved + [x])[i] == moved[i];
    assert (moved + [x])[|moved|] == x;
  }

  ghost predicate Healthy(s: State, storage: Storage) {
    && Ordered(s, storage)
    && AccountsFor(Served(s, storage), Of(s.moved, storage))
    && Clean(Served(s, storage), Of(s.moved, storage))
  }

  lemma AlternatingPrefix(a: seq<Request>, b: seq<Request>)
    requires Alternating(a + b)
    ensures Alternating(a)
  {
    forall i | 0 < i < |a| && a[i].scanType.IsScan() ensures a[i - 1].scanType.Invalid? {
      assert (a + b)[i] == a[i] && (a + b)[i - 1] == a[i - 1];
    }
  }

  lemma NoDupPrefix<T>(a: seq<T>, b: seq<T>)
    requires NoDup(a + b)
    ensures NoDup(a)
  {
    assert forall i :: 0 <= i < |a| ==> (a + b)[i] == a[i];
  }

  /** What is asked of all arrivals of a storage: scans separated by INVALID, all objects distinct. */
  ghost predicate Disciplined(arrivals: seq<Request>, storage: Storage) {
    Alternating(Of(arrivals, storage)) && NoDup(arrivals)
  }

  lemma DisciplinedPrefix(a: seq<Request>, b: seq<Request>, storage: Storage)
    requires Disciplined(a + b, storage)
    ensures Disciplined(a, storage)
  {
    NoDupPrefix(a, b);
    OfConcat(a, b, storage);
    AlternatingPrefix(Of(a, storage), Of(b, storage));
  }

  lemma HealthyStep(s: State, e: Event, storage: Storage)
    requires Healthy(s, storage) && Disciplined(Next(s, e).moved, storage)
    ensures Healthy(Next(s, e), storage)
  {
    OrderedStep(s, e, storage);
    AccountsStep(s, e, storage);
    CleanStep(s, e, storage);
  }

  lemma FutureStep(s: State, events: seq<Event>)
    requires events != []
    ensures var s' := Next(s, events[0]);
            s.moved + s.queue + Arrivals(events) == s'.moved + (s'.queue + Arrivals(events[1..]))
            == s'.moved + s'.queue + Arrivals(events[1..])
  {
    var s', rest := Next(s, events[0]), Arrivals(events[1..]);
    var arrived := if events[0].Arrive? then [events[0].request] else [];
    HistoryStep(s, events[0]);
    ConcatAssoc(s.moved + s.queue, arrived, rest);
    ConcatAssoc(s'.moved, s'.queue, rest);
  }

  lemma HistoryStep(s: State, e: Event)
    ensures Next(s, e).moved + Next(s, e).queue == s.moved + s.queue + if e.Arrive? then [e.request] else []
  {
    if e.Arrive? {
      ConcatAssoc(s.moved, s.queue, [e.request]);
    } else if Inserts(s, e) {
      ConcatAssoc(s.moved, [s.queue[0]], s.queue[1..]);
    }
  }

  /** If the arrivals of a storage on the whole run are disciplined, it stays clean throughout. */
  lemma {:induction false} StaysClean(s: State, events: seq<Event>, storage: Storage)
    requires Healthy(s, storage) && Disciplined(s.moved + s.queue + Arrivals(events), storage)
    ensures Healthy(Run(s, events), storage)
    decreases |events|
  {
    if events != [] {
      var s' := Next(s, events[0]);
      FutureStep(s, events);
      assert Healthy(s', storage) by {
        DisciplinedPrefix(s'.moved, s'.queue + Arrivals(events[1..]), storage);
        HealthyStep(s, events[0], storage);
      }
      StaysClean(s', events[1..], storage);
    }
  }

  lemma StartHealthy(storage: Storage)
    ensures Healthy(INIT, storage)
  {
  }

  /** When an INVALID separates any two scans of a storage and every request is
      a new object: each object sits in the array at most once, and every scan
      that is taken up is the first request of its storage or is directly
      preceded, among those taken up for the storage, by an INVALID. */
  lemma ScansFollowInvalid(events: seq<Event>, storage: Storage)
    requires Disciplined(Arrivals(events), storage)
    ensures var t := Run(INIT, events);
            var done := Of(t.taken, storage);
            && NoDup(done + Of(t.garray, storage))
            && Alternating(done)
            && (done != [] && done[0].scanType.IsScan() ==>
                  Of(Arrivals(events), storage) != [] && done[0] == Of(Arrivals(events), storage)[0])
  {
    var t := Run(INIT, events);
    assert [] + [] + Arrivals(events) == Arrivals(events);
    StartHealthy(storage);
    StaysClean(INIT, events, storage);
    NothingDropped(INIT, events);
    FirstIsFirst(t, storage);
    AlternatingPrefix(Of(t.taken, storage), Of(t.garray, storage));
  }

  lemma FirstIsFirst(t: State, storage: Storage)
    requires Healthy(t, storage)
    ensures var done, all := Of(t.taken, storage), Of(t.moved + t.queue, storage);
            done != [] && done[0].scanType.IsScan() ==> all != [] && done[0] == all[0]
  {
    OfConcat(t.moved, t.queue, storage);
    assert Of(t.taken, storage) != [] ==> Served(t, storage)[0] == Of(t.taken, storage)[0];
  }

  // ----- Without that discipline: when does an object appear twice? -----

  /** A new request is put in two places exactly when it finds two pending
      requests of its storage with a larger scan type. */
  lemma PlacedTwice(a: seq<Request>, x: Request)
    requires x !in a
    ensures (exists i, j :: 0 <= i < j < |Inserted(a, x)| && Inserted(a, x)[i] == x == Inserted(a, x)[j])
       <==> !x.scanType.PowerOff? && exists i, j :: 0 <= i < j < |a| && Beats(x, a[i]) && Beats(x, a[j])
  {
    var r := Inserted(a, x);
    if !x.scanType.PowerOff? && BeatsSome(a, x) {
      assert forall i :: 0 <= i < |a| ==> (r[i] == x <==> Beats(x, a[i]));
    } else {
      var at := if x.scanType.PowerOff? then 0 else |a|;
      assert forall i :: 0 <= i < |r| && i != at ==> r[i] in a;
    }
  }

  /** It does happen on a run: two full scans and then an INVALID arrive, the
      thread moves all three into the array, and the INVALID is there twice. */
  lemma TwoScansThenInvalid()
    ensures var a, b, c := Request(0, All, External), Request(1, All, External), Request(2, Invalid, External);
            var move := [Tick(true, false), Tick(true, false)];
            Run(INIT, [Arrive(a), Arrive(b), Arrive(c)] + move + move + move).garray == [c, c]
  {
    var a, b, c := Request(0, All, External), Request(1, All, External), Request(2, Invalid, External);
    var t := Tick(true, false);
    var s := State([a, b, c], [], Top, [], [], [], []);
    assert Run(INIT, [Arrive(a), Arrive(b), Arrive(c)]) == s by {
      assert [Arrive(a), Arrive(b), Arrive(c)][1..] == [Arrive(b), Arrive(c)];
      assert [Arrive(b), Arrive(c)][1..] == [Arrive(c)];
      assert [] + [a] == [a] && [a] + [b] == [a, b] && [a, b] + [c] == [a, b, c];
      assert Run(INIT.(queue := [a, b]), [Arrive(c)]) == s;
      assert Run(INIT.(queue := [a]), [Arrive(b), Arrive(c)]) == s;
    }
    MovesOne(s);
    var s1 := State([b, c], [a], Top, [a], [], [], []);
    assert Run(s, [t, t]) == s1 by {
      assert [a, b, c][1..] == [b, c] && Inserted([], a) == [a];
    }
    MovesOne(s1);
    var s2 := State([c], [a, b], Top, [a, b], [], [], []);
    assert Run(s1, [t, t]) == s2 by {
      assert [b, c][1..] == [c] && Inserted([a], b) == [a, b] && [a] + [b] == [a, b];
    }
    MovesOne(s2);
    assert Beats(c, [a, b][0]);
    assert Replaced([a, b], c) == [c, c];
    RunConcat(INIT, [Arrive(a), Arrive(b), Arrive(c)], [t, t]);
    RunConcat(INIT, [Arrive(a), Arrive(b), Arrive(c)] + [t, t], [t, t]);
    RunConcat(INIT, [Arrive(a), Arrive(b), Arrive(c)] + [t, t] + [t, t], [t, t]);
  }

  /** Two moves of the thread take the oldest queued request into the array. */
  lemma MovesOne(s: State)
    requires s.pc.Top? && s.queue != []
    ensures Run(s, [Tick(true, false), Tick(true, false)]) == MoveOne(s)
  {
    var t := Tick(true, false);
    assert [t, t][1..] == [t] && [t][1..] == [];
    assert Run(Next(s, t), [t]) == Run(Next(Next(s, t), t), []);
  }

  lemma {:induction false} RunConcat(s: State, a: seq<Event>, b: seq<Event>)
    ensures Run(s, a + b) == Run(Run(s, a), b)
    decreases |a|
  {
    if a == [] {
      assert a + b == b;
    } else {
      assert (a + b)[1..] == a[1..] + b;
      RunConcat(Next(s, a[0]), a[1..], b);
    }
  }

  // ----- Power off -----

  /** Once POWEROFF has reached the array no further request is taken up, whatever follows. */
  lemma {:induction false} PowerOffEndsScanning(s: State, events: seq<Event>)
    requires PowerOffFirst(s.garray)
    requires s.pc.Stopped? || (s.garray != [] && s.garray[0].scanType.PowerOff?)
    ensures Run(s, events).taken == s.taken && Run(s, events).trace == s.trace
    decreases |events|
  {
    if events != [] {
      if Inserts(s, events[0]) {
        InsertedKeepsPowerOff(s.garray, s.queue[0]);
      }
      PowerOffEndsScanning(Next(s, events[0]), events[1..]);
    }
  }

  ghost predicate HasPowerOff(a: seq<Request>) {
    exists i :: 0 <= i < |a| && a[i].scanType.PowerOff?
  }

  /** Once POWEROFF has been pushed, at most one more request is taken up: the
      one for which the thread had already read an empty queue. */
  lemma {:induction false} PowerOffArrived(s: State, events: seq<Event>)
    requires PowerOffFirst(s.garray) && HasPowerOff(s.queue)
    ensures |Run(s, events).taken| <= |s.taken| + if s.pc == Counted(0) then 1 else 0
    decreases |events|
  {
    if events != [] {
      var e, s' := events[0], Next(s, events[0]);
      if Inserts(s, e) {
        InsertedKeepsPowerOff(s.garray, s.queue[0]);
        if s.queue[0].scanType.PowerOff? {
          PowerOffEndsScanning(s', events[1..]);
        } else {
          var i :| 0 <= i < |s.queue| && s.queue[i].scanType.PowerOff?;
          assert s'.queue[i - 1] == s.queue[i];
          PowerOffArrived(s', events[1..]);
        }
      } else {
        var i :| 0 <= i < |s.queue| && s.queue[i].scanType.PowerOff?;
        assert s'.queue[i] == s.queue[i];
        PowerOffArrived(s', events[1..]);
      }
    }
  }

  // ----- The actions, as a language -----

  /** What an observer of the action trace has seen of the current request. */
  datatype Phase =
    | Resting(mayUpdateMmc: bool)
    | Connected
    | Updating(deleted: bool)
    | Registering(deleted: bool, validating: bool)
    | Scanned(deleted: bool, validating: bool)
    | Finishing(deleted: bool, validating: bool)
    | Validated
    | Updated(deleted: bool)
    | Halted

  /** The permitted orders: every start has its end, delete-invalid comes after
      validation has ended, delete-all before registration starts, and the
      status returns to UPDATED before the database is closed - except when
      power_off is seen after the scan, which closes it and ends everything. */
  function Accept(p: Phase, a: Action): Option<Phase> {
    match p
    case Resting(mayUpdate) =>
      if a.Connect? then Some(Connected)
      else if a.ConnectFailed? || (a.UpdateMmcInfo? && mayUpdate) then Some(Resting(false))
      else None
    case Connected => if a.SetUpdating? then Some(Updating(false)) else None
    case Updating(deleted) =>
      if a.DeleteAll? && !deleted then Some(Updating(true))
      else if a.RegisterStart? then Some(Registering(deleted, false)) else None
    case Registering(deleted, validating) =>
      if a.ValidateStart? && !deleted && !validating then Some(Registering(false, true))
      else if a.Scan? then Some(Scanned(deleted, validating)) else None
    case Scanned(deleted, validating) =>
      if a.RegisterEnd? then Some(Finishing(deleted, validating))
      else if a.Disconnect? then Some(Halted) else None
    case Finishing(deleted, validating) =>
      if validating then (if a.ValidateEnd? then Some(Validated) else None)
      else if a.SetUpdated? then Some(Updated(deleted)) else None
    case Validated => if a.DeleteInvalid? then Some(Finishing(false, false)) else None
    case Updated(deleted) => if a.Disconnect? then Some(Resting(deleted)) else None
    case Halted => None
  }

  function AcceptAll(p: Phase, t: seq<Action>): Option<Phase>
    decreases |t|
  {
    if t == [] then Some(p)
    else
      var q := Accept(p, t[0]);
      if q.Some? then AcceptAll(q.value, t[1..]) else None
  }

  lemma {:induction false} AcceptConcat(p: Phase, t: seq<Action>, u: seq<Action>)
    requires AcceptAll(p, t).Some?
    ensures AcceptAll(p, t + u) == AcceptAll(AcceptAll(p, t).value, u)
    decreases |t|
  {
    if t == [] {
      assert t + u == u;
    } else {
      assert (t + u)[1..] == t[1..] + u;
      AcceptConcat(Accept(p, t[0]).value, t[1..], u);
    }
  }

  /** Reading one optional stretch of actions at a time. */
  lemma BlockAccepted(r: Request, connects: bool, powerOff: bool, mayUpdate: bool)
    requires !r.scanType.PowerOff?
    ensures var q := AcceptAll(Resting(mayUpdate), Block(r, connects, powerOff));
            q.Some? && if connects && powerOff then q.value.Halted? else q.value.Resting?
  {
    if connects {
      var all, part := r.scanType.All?, r.scanType.Part?;
      var b1 := [Connect, SetUpdating] + (if all then [DeleteAll] else []) + [RegisterStart];
      var b2 := (if part then [ValidateStart] else []) + [Scan];
      var b3 := if powerOff then [Disconnect] else
          [RegisterEnd] + (if part then [ValidateEnd, DeleteInvalid] else []) + [SetUpdated, Disconnect]
          + (if all && r.storage.External? then [UpdateMmcInfo] else []);
      assert Block(r, connects, powerOff) == b1 + b2 + b3;
      BlockOpens(mayUpdate, all);
      BlockScans(all, part);
      BlockCloses(all, part, powerOff, r.storage.External?);
      AcceptConcat(Resting(mayUpdate), b1, b2);
      AcceptConcat(Resting(mayUpdate), b1 + b2, b3);
    }
  }

  lemma BlockOpens(mayUpdate: bool, all: bool)
    ensures AcceptAll(Resting(mayUpdate), [Connect, SetUpdating] + (if all then [DeleteAll] else []) + [RegisterStart])
         == Some(Registering(all, false))
  {
    assert AcceptAll(Registering(all, false), []) == Some(Registering(all, false));
    assert AcceptAll(Updating(all), [RegisterStart]) == Some(Registering(all, false));
    var tail := (if all then [DeleteAll] else []) + [RegisterStart];
    assert AcceptAll(Updating(false), tail) == Some(Registering(all, false)) by {
      if all {
        assert tail[1..] == [RegisterStart];
      } else {
        assert tail == [RegisterStart];
      }
    }
    var t := [Connect, SetUpdating] + (if all then [DeleteAll] else []) + [RegisterStart];
    assert t[1..][1..] == tail;
    assert AcceptAll(Connected, t[1..]) == AcceptAll(Updating(false), tail);
  }

  lemma BlockScans(all: bool, part: bool)
    requires !(all && part)
    ensures AcceptAll(Registering(all, false), (if part then [ValidateStart] else []) + [Scan])
         == Some(Scanned(all, part))
  {
    assert AcceptAll(Registering(all, part), [Scan]) == Some(Scanned(all, part));
    if part {
      assert ([ValidateStart] + [Scan])[1..] == [Scan];
    } else {
      assert [] + [Scan] == [Scan];
    }
  }

  lemma BlockCloses(all: bool, part: bool, powerOff: bool, external: bool)
    requires !(all && part)
    ensures var b := if powerOff then [Disconnect] else
                       [RegisterEnd] + (if part then [ValidateEnd, DeleteInvalid] else []) + [SetUpdated, Disconnect]
                       + (if all && external then [UpdateMmcInfo] else []);
            var q := AcceptAll(Scanned(all, part), b);
            q.Some? && if powerOff then q.value.Halted? else q.value.Resting?
  {
    if powerOff {
      assert AcceptAll(Halted, []) == Some(Halted);
    } else {
      var mmc := if all && external then [UpdateMmcInfo] else [];
      var end := [SetUpdated, Disconnect] + mmc;
      assert end[1..][1..] == mmc;
      assert AcceptAll(Resting(all), mmc).Some? && AcceptAll(Resting(all), mmc).value.Resting? by {
        assert AcceptAll(Resting(false), []) == Some(Resting(false));
      }
      assert AcceptAll(Updated(all), end[1..]) == AcceptAll(Resting(all), mmc);
      assert AcceptAll(Finishing(all, false), end) == AcceptAll(Updated(all), end[1..]);
      var middle := (if part then [ValidateEnd, DeleteInvalid] else []) + end;
      assert AcceptAll(Finishing(all, part), middle) == AcceptAll(Finishing(all, false), end) by {
        if part {
          assert middle[1..][1..] == end;
          assert AcceptAll(Validated, middle[1..]) == AcceptAll(Finishing(false, false), end);
        } else {
          assert middle == end;
        }
      }
      var b := [RegisterEnd] + (if part then [ValidateEnd, DeleteInvalid] else []) + [SetUpdated, Disconnect] + mmc;
      assert b[1..] == middle;
    }
  }

  /** The phase in which the trace leaves an observer fits the thread's state. */
  ghost predicate InPhase(s: State) {
    var q := AcceptAll(Resting(false), s.trace);
    q.Some? && (q.value.Resting? || (s.pc.Stopped? && q.value.Halted?))
  }

  /** On every run, whatever connects fail and whenever power goes off, the
      actions follow the permitted order, and between two requests nothing
      that was started is left open. */
  lemma {:induction false} TraceIsOrderly(s: State, events: seq<Event>)
    requires InPhase(s)
    ensures InPhase(Run(s, events))
    decreases |events|
  {
    if events != [] {
      var e := events[0];
      if e.Tick? && s.pc == Counted(0) && s.garray != [] && !s.garray[0].scanType.PowerOff? {
        var q := AcceptAll(Resting(false), s.trace).value;
        BlockAccepted(s.garray[0], e.connects, e.powerOff, q.mayUpdateMmc);
        AcceptConcat(Resting(false), s.trace, Block(s.garray[0], e.connects, e.powerOff));
      }
      TraceIsOrderly(Next(s, e), events[1..]);
    }
  }

  // ----- The actions, request by request -----

  /** The actions for the requests taken up, one block after the other. */
  function Blocks(taken: seq<Request>, fates: seq<Fate>): seq<Action>
    requires |taken| == |fates|
  {
    if taken == [] then []
    else
      var n := |taken| - 1;
      Blocks(taken[..n], fates[..n]) + Block(taken[n], fates[n].connects, fates[n].powerOff)
  }

  ghost predicate TraceOf(s: State) {
    && |s.taken| == |s.fates| && s.trace == Blocks(s.taken, s.fates)
    && (forall k :: 0 <= k < |s.taken| ==> !s.taken[k].scanType.PowerOff?)
  }

  /** On every run the trace is made of the blocks of the requests taken up, in
      order, each according to its type and to how it fared. */
  lemma {:induction false} TraceIsBlocks(s: State, events: seq<Event>)
    requires TraceOf(s)
    ensures TraceOf(Run(s, events))
    decreases |events|
  {
    if events != [] {
      var e, s' := events[0], Next(s, events[0]);
      if e.Tick? && s.pc == Counted(0) && s.garray != [] && !s.garray[0].scanType.PowerOff? {
        BlocksSnoc(s.taken, s.fates, s.garray[0], Fate(e.connects, e.powerOff));
      }
      TraceIsBlocks(s', events[1..]);
    }
  }

  lemma BlocksSnoc(taken: seq<Request>, fates: seq<Fate>, r: Request, fate: Fate)
    requires |taken| == |fates|
    ensures Blocks(taken + [r], fates + [fate]) == Blocks(taken, fates) + Block(r, fate.connects, fate.powerOff)
  {
    assert (taken + [r])[..|taken|] == taken && (fates + [fate])[..|fates|] == fates;
  }

  function BlockStart(all: bool, part: bool): seq<Action> {
    [Connect, SetUpdating] + (if all then [DeleteAll] else []) + [RegisterStart]
    + (if part then [ValidateStart] else []) + [Scan]
  }

  function BlockEnd(all: bool, part: bool, powerOff: bool, external: bool): seq<Action> {
    if powerOff then [Disconnect] else
      [RegisterEnd] + (if part then [ValidateEnd, DeleteInvalid] else []) + [SetUpdated, Disconnect]
      + if all && external then [UpdateMmcInfo] else []
  }

  lemma BlockStartTells(all: bool, part: bool, a: Action)
    ensures a in BlockStart(all, part) <==>
              a == Connect || a == SetUpdating || a == RegisterStart || a == Scan
              || (all && a == DeleteAll) || (part && a == ValidateStart)
  {
    var opening := [Connect, SetUpdating] + (if all then [DeleteAll] else []) + [RegisterStart];
    assert a in opening <==> a == Connect || a == SetUpdating || a == RegisterStart || (all && a == DeleteAll);
  }

  lemma BlockEndTells(all: bool, part: bool, powerOff: bool, external: bool, a: Action)
    ensures a in BlockEnd(all, part, powerOff, external) <==>
              a == Disconnect
              || (!powerOff && (a == RegisterEnd || a == SetUpdated
                                || (part && (a == ValidateEnd || a == DeleteInvalid))
                                || (all && external && a == UpdateMmcInfo)))
  {
    if !powerOff {
      var front := [RegisterEnd] + if part then [ValidateEnd, DeleteInvalid] else [];
      assert a in front <==> a == RegisterEnd || (part && (a == ValidateEnd || a == DeleteInvalid));
      var middle := front + [SetUpdated, Disconnect];
      assert a in middle <==> a in front || a == SetUpdated || a == Disconnect;
    }
  }

  /** What is done for a request, given its type and how it fares: delete-all
      exactly for a full scan, validation and delete-invalid exactly for a
      partial one, and whatever was opened is closed. */
  predicate Performs(r: Request, connects: bool, powerOff: bool, a: Action) {
    match a
    case ConnectFailed => !connects
    case Connect | SetUpdating | RegisterStart | Scan | Disconnect => connects
    case DeleteAll => connects && r.scanType.All?
    case ValidateStart => connects && r.scanType.Part?
    case RegisterEnd | SetUpdated => connects && !powerOff
    case ValidateEnd | DeleteInvalid => connects && !powerOff && r.scanType.Part?
    case UpdateMmcInfo => connects && !powerOff && r.scanType.All? && r.storage.External?
  }

  lemma BlockTells(r: Request, connects: bool, powerOff: bool, a: Action)
    ensures a in Block(r, connects, powerOff) <==> Performs(r, connects, powerOff, a)
  {
    var all, part := r.scanType.All?, r.scanType.Part?;
    if connects {
      var front, end := BlockStart(all, part), BlockEnd(all, part, powerOff, r.storage.External?);
      assert Block(r, connects, powerOff) == front + end;
      BlockStartTells(all, part, a);
      BlockEndTells(all, part, powerOff, r.storage.External?, a);
    }
  }
}
