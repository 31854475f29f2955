/** What the registration protocol tells its clients, over every interleaving:
    which check, or whose insertion of which file, each answer comes from. */
module RegistrationRuns {
  import opened Base
  import opened RegList
  import opened Registration

  /** What a thread does at a turn, seen from where it stands. */
  datatype Deed = Asks(path: CString) | Checks(path: CString, known: bool) | Inserts(path: CString, outcome: Outcome)

  function DeedsAt(pc: Pc, input: Input): seq<Deed> {
    match pc
    case Idle => [Asks(input.path)]
    case Exist(p) => [Checks(p, input.known)]
    case Inserting(p) => [Inserts(p, input.outcome)]
    case _ => []
  }

  function After(s: State, turn: Turn): State {
    var step := Step(s, turn.who, turn.input);
    if step.Some? then step.value else s
  }

  lemma {:induction false} RunSnoc(s: State, turns: seq<Turn>, turn: Turn)
    ensures Run(s, turns + [turn]) == After(Run(s, turns), turn)
    decreases |turns|
  {
    if turns == [] {
      assert [] + [turn] == [turn] && [turn][1..] == [];
    } else {
      assert (turns + [turn])[1..] == turns[1..] + [turn];
      RunSnoc(After(s, turns[0]), turns[1..], turn);
    }
  }

  /** The deeds of one thread in a run from the start. */
  function Deeds(turns: seq<Turn>, t: Tid): seq<Deed> {
    if turns == [] then []
    else
      var init, last := turns[..|turns| - 1], turns[|turns| - 1];
      Deeds(init, t) + if last.who == t then DeedsAt(PcOf(Run(INIT, init), t), last.input) else []
  }

  /** A check directly follows the question for that path, an insertion directly
      follows a check that did not find that path, and no question is dropped. */
  ghost predicate InTurn(deeds: seq<Deed>) {
    forall i :: 0 <= i < |deeds| ==> Follows(deeds, i)
  }

  predicate Follows(deeds: seq<Deed>, i: nat)
    requires i < |deeds|
  {
    match deeds[i]
    case Asks(_) => i > 0 ==> !deeds[i - 1].Asks?
    case Checks(p, _) => i > 0 && deeds[i - 1] == Asks(p)
    case Inserts(p, _) => i > 0 && deeds[i - 1] == Checks(p, false)
  }

  /** For each question the last thing done about it. */
  function Latest(deeds: seq<Deed>): seq<Deed> {
    if deeds == [] then []
    else
      var before, last := Latest(deeds[..|deeds| - 1]), deeds[|deeds| - 1];
      if last.Asks? || before == [] then before + [last] else before[..|before| - 1] + [last]
  }

  /** The answer that goes with it: success at once for a file that is known,
      the result of the own insertion, or that of somebody else. */
  predicate Answers(d: Deed, reply: Reply) {
    && reply.path == d.path
    && match d
       case Asks(_) => false
       case Checks(_, known) => if known then reply.origin.AlreadyThere? && reply.result == MS_ERR_NONE
                                else reply.origin.Handed?
       case Inserts(_, outcome) => reply.origin.OwnWork? && reply.result == outcome.Code()
  }

  /** The results of the insertions among these deeds. */
  function Results(deeds: seq<Deed>): seq<Registration> {
    if deeds == [] then []
    else
      var last := deeds[|deeds| - 1];
      Results(deeds[..|deeds| - 1]) + if last.Inserts? then [Registration(last.path, last.outcome.Code())] else []
  }

  /** Only a file that was inserted is reported as registered, and the failures differ. */
  lemma CodesTell(o: Outcome, p: Outcome)
    ensures o.Code() == MS_ERR_NONE <==> o.Registered?
    ensures o.Code() == p.Code() <==> o == p
  {
  }

  // ----- Where a thread stands, and what it did last -----

  ghost predicate StandsAt(pc: Pc, deeds: seq<Deed>) {
    if deeds == [] then pc.Idle?
    else
      var last := deeds[|deeds| - 1];
      match pc
      case Idle => !last.Asks?
      case Exist(p) => last == Asks(p)
      case Lock1(p) => last == Checks(p, false)
      case Section1(p) => last == Checks(p, false)
      case Inserting(p) => last == Checks(p, false)
      case Wait(p, _) => last == Checks(p, false)
      case Lock2(p, r) => last.Inserts? && last.path == p && last.outcome.Code() == r
      case Delete(p, r) => last.Inserts? && last.path == p && last.outcome.Code() == r
      case Push(p, r) => last.Inserts? && last.path == p && last.outcome.Code() == r
      case Clear(p, r) => last.Inserts? && last.path == p && last.outcome.Code() == r
  }

  /** All questions but the one that the thread is busy with are answered, in order. */
  ghost predicate Answered(replies: seq<Reply>, socket: Pc, deeds: seq<Deed>) {
    var latest := Latest(deeds);
    && |latest| == |replies| + (if socket.Idle? then 0 else 1)
    && forall i :: 0 <= i < |replies| ==> Answers(latest[i], replies[i])
  }

  /** The completed registrations of the inotify thread are its insertions. */
  ghost predicate Recorded(done: seq<Registration>, inotify: Pc, deeds: seq<Deed>) {
    Results(deeds) == done + if inotify.Lock2? || inotify.Delete? then [Registration(inotify.path, inotify.res)] else []
  }

  lemma DeedsAdded(deeds: seq<Deed>, more: seq<Deed>)
    requires |more| <= 1
    ensures Latest(deeds + more) == if more == [] then Latest(deeds)
                                    else if more[0].Asks? || Latest(deeds) == [] then Latest(deeds) + more
                                    else Latest(deeds)[..|Latest(deeds)| - 1] + more
    ensures Results(deeds + more) == Results(deeds) +
              if more != [] && more[0].Inserts? then [Registration(more[0].path, more[0].outcome.Code())] else []
  {
    if more == [] {
      assert deeds + more == deeds;
    } else {
      assert (deeds + more)[..|deeds|] == deeds && [more[0]] == more;
    }
  }

  lemma InTurnSnoc(deeds: seq<Deed>, d: Deed)
    requires InTurn(deeds) && Follows(deeds + [d], |deeds|)
    ensures InTurn(deeds + [d])
  {
    forall i: nat | i < |deeds| ensures Follows(deeds + [d], i) {
      assert Follows(deeds, i);
    }
  }

  lemma StandsStep(s: State, t: Tid, input: Input, deeds: seq<Deed>)
    requires StandsAt(PcOf(s, t), deeds) && InTurn(deeds) && Step(s, t, input).Some?
    ensures var now := deeds + DeedsAt(PcOf(s, t), input);
            StandsAt(PcOf(Step(s, t, input).value, t), now) && InTurn(now)
  {
    var more := DeedsAt(PcOf(s, t), input);
    if more == [] {
      assert deeds + more == deeds;
    } else {
      assert more == [more[0]] && (deeds + more)[|deeds|] == more[0];
      InTurnSnoc(deeds, more[0]);
    }
  }

  lemma LatestEnds(deeds: seq<Deed>)
    requires deeds != []
    ensures var latest := Latest(deeds); latest != [] && latest[|latest| - 1] == deeds[|deeds| - 1]
  {
  }

  /** The answers given so far fit. */
  ghost predicate Fit(latest: seq<Deed>, replies: seq<Reply>) {
    |replies| <= |latest| && forall i :: 0 <= i < |replies| ==> Answers(latest[i], replies[i])
  }

  /** They go on fitting when the thread does something more about the open question or is asked another one. */
  lemma StillFits(deeds: seq<Deed>, more: seq<Deed>, replies: seq<Reply>)
    requires |more| <= 1 && Fit(Latest(deeds), replies)
    requires more != [] && !more[0].Asks? ==> |replies| < |Latest(deeds)|
    ensures Fit(Latest(deeds + more), replies)
    ensures |Latest(deeds + more)| == |Latest(deeds)| + if more != [] && more[0].Asks? then 1 else 0
  {
    DeedsAdded(deeds, more);
  }

  /** Only the last step of a request answers it, and only the first one is a question. */
  lemma AnswerAtEnd(s: State, input: Input)
    requires Step(s, Socket, input).Some?
    ensures var s', more := Step(s, Socket, input).value, DeedsAt(s.socket, input);
            && |more| <= 1 && (s.socket.Idle? <==> more != [] && more[0].Asks?)
            && (s.socket.Idle? ==> !s'.socket.Idle?) && (!s'.socket.Idle? ==> s'.replies == s.replies)
  {
  }

  lemma StillOpen(s: State, input: Input, deeds: seq<Deed>)
    requires Answered(s.replies, s.socket, deeds) && Step(s, Socket, input).Some?
    requires !Step(s, Socket, input).value.socket.Idle?
    ensures var s' := Step(s, Socket, input).value;
            Answered(s'.replies, s'.socket, deeds + DeedsAt(s.socket, input))
  {
    AnswerAtEnd(s, input);
    StillFits(deeds, DeedsAt(s.socket, input), s.replies);
  }

  lemma NowAnswered(s: State, input: Input, deeds: seq<Deed>)
    requires StandsAt(s.socket, deeds) && Answered(s.replies, s.socket, deeds) && Step(s, Socket, input).Some?
    requires Step(s, Socket, input).value.socket.Idle?
    ensures var s' := Step(s, Socket, input).value;
            Answered(s'.replies, s'.socket, deeds + DeedsAt(s.socket, input))
  {
    AnswerAtEnd(s, input);
    var s', now := Step(s, Socket, input).value, deeds + DeedsAt(s.socket, input);
    StillFits(deeds, DeedsAt(s.socket, input), s.replies);
    LatestEnds(now);
    AnswerFits(s, input, deeds, now[|now| - 1]);
    FitMore(Latest(now), s.replies, s'.replies[|s.replies|]);
  }

  lemma FitMore(latest: seq<Deed>, replies: seq<Reply>, reply: Reply)
    requires Fit(latest, replies) && |latest| == |replies| + 1 && Answers(latest[|replies|], reply)
    ensures Fit(latest, replies + [reply])
  {
  }

  lemma AnswerFits(s: State, input: Input, deeds: seq<Deed>, d: Deed)
    requires StandsAt(s.socket, deeds) && deeds != [] && !s.socket.Idle?
    requires Step(s, Socket, input).Some? && Step(s, Socket, input).value.socket.Idle?
    requires d == if s.socket.Exist? then Checks(s.socket.path, input.known) else deeds[|deeds| - 1]
    ensures var after := Step(s, Socket, input).value.replies;
            |after| == |s.replies| + 1 && after == s.replies + [after[|s.replies|]] && Answers(d, after[|s.replies|])
  {
  }

  lemma RecordedStep(s: State, input: Input, deeds: seq<Deed>)
    requires StandsAt(s.inotify, deeds) && Recorded(s.done, s.inotify, deeds) && Step(s, Inotify, input).Some?
    ensures var s' := Step(s, Inotify, input).value;
            Recorded(s'.done, s'.inotify, deeds + DeedsAt(s.inotify, input))
  {
    DeedsAdded(deeds, DeedsAt(s.inotify, input));
    DoneGrowsAtDelete(s, Inotify, input);
  }

  lemma DoneGrowsAtDelete(s: State, t: Tid, input: Input)
    requires Step(s, t, input).Some?
    ensures var s', pc := Step(s, t, input).value, PcOf(s, t);
            s'.done == s.done + if t.Inotify? && pc.Delete? then [Registration(pc.path, pc.res)] else []
  {
  }

  /** Everything that is told about the deeds of the two threads. */
  ghost predicate Told(s: State, inotify: seq<Deed>, socket: seq<Deed>) {
    && StandsAt(s.inotify, inotify) && InTurn(inotify) && Recorded(s.done, s.inotify, inotify)
    && StandsAt(s.socket, socket) && InTurn(socket) && Answered(s.replies, s.socket, socket)
  }

  lemma SocketTold(s: State, input: Input, inotify: seq<Deed>, socket: seq<Deed>)
    requires Told(s, inotify, socket) && Step(s, Socket, input).Some?
    ensures Told(Step(s, Socket, input).value, inotify, socket + DeedsAt(s.socket, input))
  {
    StandsStep(s, Socket, input, socket);
    if Step(s, Socket, input).value.socket.Idle? {
      NowAnswered(s, input, socket);
    } else {
      StillOpen(s, input, socket);
    }
    DoneGrowsAtDelete(s, Socket, input);
    assert Step(s, Socket, input).value.inotify == s.inotify;
  }

  lemma InotifyTold(s: State, input: Input, inotify: seq<Deed>, socket: seq<Deed>)
    requires Told(s, inotify, socket) && Step(s, Inotify, input).Some?
    ensures Told(Step(s, Inotify, input).value, inotify + DeedsAt(s.inotify, input), socket)
  {
    StandsStep(s, Inotify, input, inotify);
    RecordedStep(s, input, inotify);
    var s' := Step(s, Inotify, input).value;
    assert s'.replies == s.replies && s'.socket == s.socket;
  }

  lemma BlockedDoesNothing(s: State, t: Tid, input: Input)
    ensures Step(s, t, input).None? ==> DeedsAt(PcOf(s, t), input) == []
  {
  }

  lemma ToldTurn(s: State, turn: Turn, inotify: seq<Deed>, socket: seq<Deed>)
    requires Told(s, inotify, socket)
    ensures Told(After(s, turn),
                 inotify + (if turn.who.Inotify? then DeedsAt(s.inotify, turn.input) else []),
                 socket + (if turn.who.Socket? then DeedsAt(s.socket, turn.input) else []))
  {
    assert inotify + [] == inotify && socket + [] == socket;
    if Step(s, turn.who, turn.input).None? {
      BlockedDoesNothing(s, turn.who, turn.input);
    } else if turn.who.Socket? {
      SocketTold(s, turn.input, inotify, socket);
    } else {
      InotifyTold(s, turn.input, inotify, socket);
    }
  }

  lemma DeedsSnoc(turns: seq<Turn>, turn: Turn, t: Tid)
    ensures Deeds(turns + [turn], t) ==
            Deeds(turns, t) + if turn.who == t then DeedsAt(PcOf(Run(INIT, turns), t), turn.input) else []
  {
    assert (turns + [turn])[..|turns|] == turns;
  }

  lemma {:induction false} RunTells(turns: seq<Turn>)
    ensures Told(Run(INIT, turns), Deeds(turns, Inotify), Deeds(turns, Socket))
  {
    if turns != [] {
      var init, last := turns[..|turns| - 1], turns[|turns| - 1];
      assert turns == init + [last];
      RunTells(init);
      RunSnoc(INIT, init, last);
      DeedsSnoc(init, last, Inotify);
      DeedsSnoc(init, last, Socket);
      ToldTurn(Run(INIT, init), last, Deeds(init, Inotify), Deeds(init, Socket));
    }
  }

  // ----- Main results -----

  /** After every interleaving each question of a client has at most one answer,
      in order, and only the one that the thread is busy with has none. An answer
      is success at once exactly if the check found the file; otherwise it is the
      result of the thread's own insertion of that file or was handed over. */
  lemma EachQuestionAnswered(turns: seq<Turn>)
    ensures var s, deeds := Run(INIT, turns), Deeds(turns, Socket);
            var latest := Latest(deeds);
            && InTurn(deeds)
            && |latest| == |s.replies| + (if s.socket.Idle? then 0 else 1)
            && forall i :: 0 <= i < |s.replies| ==> Answers(latest[i], s.replies[i])
  {
    RunTells(turns);
  }

  lemma {:induction false} ResultIsInsertion(deeds: seq<Deed>, r: Registration)
    requires r in Results(deeds)
    ensures exists o: Outcome :: Inserts(r.path, o) in deeds && o.Code() == r.res
  {
    var init, last := deeds[..|deeds| - 1], deeds[|deeds| - 1];
    if r in Results(init) {
      ResultIsInsertion(init, r);
      var o: Outcome :| Inserts(r.path, o) in init && o.Code() == r.res;
      assert Inserts(r.path, o) in deeds;
    } else {
      assert Inserts(r.path, last.outcome) in deeds;
    }
  }

  lemma {:induction false} LatestAreDeeds(deeds: seq<Deed>, d: Deed)
    ensures d in Latest(deeds) ==> d in deeds
  {
    if deeds != [] {
      LatestAreDeeds(deeds[..|deeds| - 1], d);
    }
  }

  /** Whoever asks about a file that the check does not find is told what one of
      the two threads' insertions of that very file came to: success only if it
      was inserted. */
  lemma AnswersComeFromInsertions(turns: seq<Turn>, i: nat)
    requires i < |Run(INIT, turns).replies| && !Run(INIT, turns).replies[i].origin.AlreadyThere?
    ensures var reply := Run(INIT, turns).replies[i];
            exists t, o: Outcome :: Inserts(reply.path, o) in Deeds(turns, t) && o.Code() == reply.result
                                    && (reply.result == MS_ERR_NONE <==> o.Registered?)
  {
    var s, reply := Run(INIT, turns), Run(INIT, turns).replies[i];
    RunTells(turns);
    var d := Latest(Deeds(turns, Socket))[i];
    assert Answers(d, reply);
    LatestAreDeeds(Deeds(turns, Socket), d);
    if d.Inserts? {
      CodesTell(d.outcome, Registered);
      assert Inserts(reply.path, d.outcome) in Deeds(turns, Socket);
    } else {
      RepliesAreRight(turns, i);
      var r := Registration(reply.path, reply.result);
      assert s.done[reply.origin.ticket] == r && r in Results(Deeds(turns, Inotify));
      ResultIsInsertion(Deeds(turns, Inotify), r);
      var o: Outcome :| Inserts(reply.path, o) in Deeds(turns, Inotify) && o.Code() == reply.result;
      CodesTell(o, Registered);
    }
  }

  /** And success at once is told only of files that the check found. */
  lemma KnownFilesAreFound(turns: seq<Turn>, i: nat)
    requires i < |Run(INIT, turns).replies| && Run(INIT, turns).replies[i].origin.AlreadyThere?
    ensures var reply := Run(INIT, turns).replies[i];
            reply.result == MS_ERR_NONE && Checks(reply.path, true) in Deeds(turns, Socket)
  {
    RunTells(turns);
    var d := Latest(Deeds(turns, Socket))[i];
    assert Answers(d, Run(INIT, turns).replies[i]);
    LatestAreDeeds(Deeds(turns, Socket), d);
  }

  lemma ResultIsNotNull(deeds: seq<Deed>, r: Registration)
    requires r in Results(deeds)
    ensures r.res + MS_ERR_MAX != 0
  {
    ResultIsInsertion(deeds, r);
    var o: Outcome :| Inserts(r.path, o) in deeds && o.Code() == r.res;
  }

  /** What is pushed for a waiter is never zero, which the queue would take for
      NULL: that is what the shift by MS_ERR_MAX is for. */
  lemma NothingPushedIsNull(turns: seq<Turn>)
    ensures forall x :: x in Run(INIT, turns).retQueue ==> x != 0
  {
    var s := Run(INIT, turns);
    RunTells(turns);
    HandoffIsSafe(turns);
    RunKeepsInv(INIT, turns);
    if s.retQueue != [] {
      var r := s.done[s.socket.ticket];
      assert s.retQueue == [r.res + MS_ERR_MAX];
      assert r in Results(Deeds(turns, Inotify));
      ResultIsNotNull(Deeds(turns, Inotify), r);
    }
  }

  /** No file is inserted, by either thread, but after a check that did not find it. */
  lemma OnlyUnknownInserted(turns: seq<Turn>, t: Tid, i: nat)
    requires i < |Deeds(turns, t)| && Deeds(turns, t)[i].Inserts?
    ensures i >= 2
    ensures var deeds := Deeds(turns, t);
            deeds[i - 1] == Checks(deeds[i].path, false) && deeds[i - 2] == Asks(deeds[i].path)
  {
    RunTells(turns);
    assert InTurn(Deeds(turns, t));
    assert Follows(Deeds(turns, t), i) && Follows(Deeds(turns, t), i - 1);
  }

  // ----- Progress of a single request -----

  /** Steps until the thread is idle again. */
  function Remaining(pc: Pc): nat {
    match pc
    case Idle => 0
    case Exist(_) => 8
    case Lock1(_) => 7
    case Section1(_) => 6
    case Inserting(_) => 5
    case Lock2(_, _) => 4
    case Delete(_, _) => 3
    case Push(_, _) => 2
    case Clear(_, _) => 1
    case Wait(_, _) => 1
  }

  /** Each step that a busy thread can make brings it nearer to its answer. */
  lemma EachStepNearer(s: State, t: Tid, input: Input)
    requires Step(s, t, input).Some? && !PcOf(s, t).Idle?
    ensures Remaining(PcOf(Step(s, t, input).value, t)) < Remaining(PcOf(s, t)) <= 8
  {
  }

  /** Nothing is going on. */
  ghost predicate AtRest(s: State) {
    s.inotify.Idle? && s.socket.Idle? && s.mutex == None && s.regList == [] && !s.socQueue
  }

  lemma ListedMeansBusy(s: State)
    requires ListInv(s)
    ensures s.regList != [] ==> !s.inotify.Idle? || !s.socket.Idle?
  {
    if s.regList != [] {
      assert s.regList[0] in s.regList;
    }
  }

  lemma IdleIsAtRest(s: State)
    requires Inv(s) && s.inotify.Idle? && s.socket.Idle?
    ensures AtRest(s)
  {
    OwnerOf(s);
    ListedMeansBusy(s);
  }

  /** A client alone with a known file: two turns, and success. */
  lemma AloneWithKnown(s: State, ask: Input, check: Input)
    requires AtRest(s) && check.known
    ensures Run(s, [Turn(Socket, ask), Turn(Socket, check)])
         == s.(replies := s.replies + [Reply(ask.path, MS_ERR_NONE, AlreadyThere)])
  {
    var turns := [Turn(Socket, ask), Turn(Socket, check)];
    RunSnoc(s, [], turns[0]);
    RunSnoc(s, turns[..1], turns[1]);
    assert turns[..1] == [] + [turns[0]] && turns == turns[..1] + [turns[1]];
  }

  lemma RunThree(s: State, x: Turn, y: Turn, z: Turn)
    ensures Run(s, [x, y, z]) == After(After(After(s, x), y), z)
  {
    RunSnoc(s, [], x);
    RunSnoc(s, [x], y);
    RunSnoc(s, [x, y], z);
    assert [] + [x] == [x] && [x] + [y] == [x, y] && [x, y] + [z] == [x, y, z];
  }

  lemma {:induction false} RunConcat(s: State, a: seq<Turn>, b: seq<Turn>)
    ensures Run(s, a + b) == Run(Run(s, a), b)
    decreases |b|
  {
    if b == [] {
      assert a + b == a;
    } else {
      var init, last := b[..|b| - 1], b[|b| - 1];
      assert a + b == (a + init) + [last] && b == init + [last];
      RunConcat(s, a, init);
      RunSnoc(s, a + init, last);
      RunSnoc(Run(s, a), init, last);
    }
  }

  lemma ThreeToSection(s: State, ask: Turn, check: Turn, turn: Turn)
    requires AtRest(s) && !check.input.known && ask.who == check.who == turn.who == Socket
    ensures Run(s, [ask, check, turn]) == s.(socket := Section1(ask.input.path), mutex := Some(Socket))
  {
    RunThree(s, ask, check, turn);
    assert After(After(s, ask), check) == s.(socket := Lock1(ask.input.path));
  }

  lemma ThreeToDelete(s: State, turn: Turn, insert: Turn)
    requires s.socket.Section1? && s.mutex == Some(Socket) && s.regList == [] && turn.who == insert.who == Socket
    ensures Run(s, [turn, insert, turn])
         == s.(socket := Delete(s.socket.path, insert.input.outcome.Code()), regList := [s.socket.path])
  {
    RunThree(s, turn, insert, turn);
    assert After(s, turn) == s.(socket := Inserting(s.socket.path), regList := [s.socket.path], mutex := None);
  }

  lemma ThreeToIdle(s: State, turn: Turn)
    requires s.socket.Delete? && s.regList == [s.socket.path] && !s.socQueue && turn.who == Socket
    ensures Run(s, [turn, turn, turn])
         == s.(socket := Idle, mutex := None, regList := [],
               replies := s.replies + [Reply(s.socket.path, s.socket.res, OwnWork)])
  {
    RunThree(s, turn, turn, turn);
    assert After(s, turn) == s.(socket := Push(s.socket.path, s.socket.res), regList := []);
  }

  /** And with an unknown one: nine turns, and the result of the insertion. */
  lemma AloneWithUnknown(s: State, ask: Turn, check: Turn, turn: Turn, insert: Turn)
    requires AtRest(s) && !check.input.known && ask.who == check.who == turn.who == insert.who == Socket
    ensures Run(s, [ask, check, turn] + [turn, insert, turn] + [turn, turn, turn])
         == s.(replies := s.replies + [Reply(ask.input.path, insert.input.outcome.Code(), OwnWork)])
  {
    ThreeToSection(s, ask, check, turn);
    var s3 := Run(s, [ask, check, turn]);
    ThreeToDelete(s3, turn, insert);
    var s6 := Run(s3, [turn, insert, turn]);
    ThreeToIdle(s6, turn);
    RunConcat(s, [ask, check, turn], [turn, insert, turn]);
    RunConcat(s, [ask, check, turn] + [turn, insert, turn], [turn, turn, turn]);
  }
}
