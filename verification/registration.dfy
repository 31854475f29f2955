/** The registration protocol between the two callers of ms_register_file: the
    inotify thread, which passes no reply queue, and the socket thread, which
    passes `ret_queue` and waits on it when the file is being registered.
    One step of a thread is what it does between two points where the other
    can interfere; the last critical section is delete, push and clear. */
module Registration {
  import opened Base
  import opened RegList

  datatype Tid = Inotify | Socket

  /** Where a thread stands in ms_register_file, or in ms_read_socket. */
  datatype Pc =
    | Idle
    | Exist(path: CString)             // about to call ms_check_exist
    | Lock1(path: CString)             // about to lock queue_mutex
    | Section1(path: CString)          // holds it, about to search reg_list
    | Inserting(path: CString)         // registering, without the mutex
    | Lock2(path: CString, res: int)
    | Delete(path: CString, res: int)  // holds the mutex, about to leave reg_list
    | Push(path: CString, res: int)
    | Clear(path: CString, res: int)
    | Wait(path: CString, ticket: nat) // socket thread only: blocked on ret_queue

  /** The values `res` can have at the end of ms_register_file. */
  datatype Outcome = Registered | NoMime | NotInserted {
    function Code(): int {
      match this
      case Registered => MS_ERR_NONE
      case NoMime => MS_ERR_MIME_GET_FAIL
      case NotInserted => MS_ERR_DB_INSERT_RECORD_FAIL
    }
  }

  /** What the environment decides when a thread moves. */
  datatype Input = Input(path: CString, known: bool, outcome: Outcome)

  datatype Registration = Registration(path: CString, res: int)

  /** How the socket thread came to an answer for a client. */
  datatype Origin = AlreadyThere | OwnWork | Handed(ticket: nat)

  datatype Reply = Reply(path: CString, result: int, origin: Origin)

  /** The shared variables, the two program counters, and a history: the
      registrations the inotify thread completed, the answers given to
      clients, and the counts of MS_ERR_NOW_REGISTER_FILE, pushes and pops. */
  datatype State = State(
    inotify: Pc, socket: Pc, mutex: Option<Tid>, regList: seq<CString>, socQueue: bool, retQueue: seq<int>,
    done: seq<Registration>, replies: seq<Reply>, asked: nat, pushed: nat, popped: nat)

  const INIT := State(Idle, Idle, None, [], false, [], [], [], 0, 0, 0)

  function PcOf(s: State, t: Tid): Pc {
    if t.Inotify? then s.inotify else s.socket
  }

  function Goto(s: State, t: Tid, pc: Pc): State {
    if t.Inotify? then s.(inotify := pc) else s.(socket := pc)
  }

  /** Return from ms_register_file; the socket thread answers its client. */
  function Return(s: State, t: Tid, reply: Reply): State {
    if t.Inotify? then s.(inotify := Idle) else s.(socket := Idle, replies := s.replies + [reply])
  }

  /** One step of thread `t`; None when it is blocked. */
  function Step(s: State, t: Tid, input: Input): Option<State> {
    match PcOf(s, t)
    case Idle => Some(Goto(s, t, Exist(input.path)))
    case Exist(p) =>
      Some(if input.known then Return(s, t, Reply(p, MS_ERR_NONE, AlreadyThere)) else Goto(s, t, Lock1(p)))
    case Lock1(p) =>
      if s.mutex == None then Some(Goto(s, t, Section1(p)).(mutex := Some(t))) else None
    case Section1(p) =>
      Some((if p !in s.regList then Goto(s, t, Inserting(p)).(regList := s.regList + [p])
            else if t.Socket? then s.(socket := Wait(p, |s.done|), socQueue := true, asked := s.asked + 1)
            else s.(inotify := Idle)).(mutex := None))
    case Inserting(p) => Some(Goto(s, t, Lock2(p, input.outcome.Code())))
    case Lock2(p, r) =>
      if s.mutex == None then Some(Goto(s, t, Delete(p, r)).(mutex := Some(t))) else None
    case Delete(p, r) =>
      Some(Goto(s, t, Push(p, r)).(
        regList := RemoveFirst(s.regList, p),
        done := if t.Inotify? then s.done + [Registration(p, r)] else s.done))
    case Push(p, r) =>
      Some(if s.socQueue
           then Goto(s, t, Clear(p, r)).(retQueue := s.retQueue + [r + MS_ERR_MAX], pushed := s.pushed + 1)
           else Goto(s, t, Clear(p, r)))
    case Clear(p, r) => Some(Return(s, t, Reply(p, r, OwnWork)).(socQueue := false, mutex := None))
    case Wait(p, k) =>
      if s.retQueue == [] then None
      else Some(Return(s, t, Reply(p, s.retQueue[0] - MS_ERR_MAX, Handed(k))).(
                  retQueue := s.retQueue[1..], popped := s.popped + 1))
  }

  datatype Turn = Turn(who: Tid, input: Input)

  /** Any interleaving: a thread whose turn comes while it is blocked does nothing. */
  function Run(s: State, turns: seq<Turn>): State
    decreases |turns|
  {
    if turns == [] then s
    else
      var step := Step(s, turns[0].who, turns[0].input);
      Run(if step.Some? then step.value else s, turns[1..])
  }

  // ----- The invariant -----

  predicate Owns(pc: Pc) {
    pc.Section1? || pc.Delete? || pc.Push? || pc.Clear?
  }

  /** Between its insertion into reg_list and its removal. */
  predicate Holds(pc: Pc, p: CString) {
    (pc.Inserting? || pc.Lock2? || pc.Delete?) && pc.path == p
  }

  ghost predicate MutexInv(s: State) {
    && (s.mutex == Some(Inotify) <==> Owns(s.inotify))
    && (s.mutex == Some(Socket) <==> Owns(s.socket))
  }

  ghost predicate ListInv(s: State) {
    && NoDup(s.regList)
    && (forall p :: p in s.regList <==> Holds(s.inotify, p) || Holds(s.socket, p))
    && (forall p :: !(Holds(s.inotify, p) && Holds(s.socket, p)))
  }

  /** The registration a waiter asked for is still going on, or its reply is about to be pushed. */
  ghost predicate Coming(s: State, p: CString, k: nat) {
    || (Holds(s.inotify, p) && k == |s.done|)
    || (s.inotify.Push? && s.inotify.path == p && k + 1 == |s.done| && s.done[k] == Registration(p, s.inotify.res))
  }

  ghost predicate HandoffInv(s: State) {
    && !s.inotify.Wait?
    && if s.socket.Wait? && s.retQueue == [] then s.socQueue && Coming(s, s.socket.path, s.socket.ticket)
       else
         && (s.socQueue ==> s.inotify.Clear?)
         && if s.socket.Wait? then
              && |s.retQueue| == 1
              && s.socket.ticket < |s.done|
              && s.done[s.socket.ticket] == Registration(s.socket.path, s.retQueue[0] - MS_ERR_MAX)
            else s.retQueue == []
  }

  ghost predicate CountInv(s: State) {
    && s.pushed == s.popped + |s.retQueue|
    && s.asked == s.pushed + if s.socQueue && !s.inotify.Clear? then 1 else 0
  }

  /** A handed-over answer is the result of exactly the registration, of
      exactly the path, that was going on when the socket thread asked. */
  ghost predicate ReplyInv(s: State) {
    forall i :: 0 <= i < |s.replies| && s.replies[i].origin.Handed? ==>
      var k := s.replies[i].origin.ticket;
      k < |s.done| && s.done[k] == Registration(s.replies[i].path, s.replies[i].result)
  }

  ghost predicate Inv(s: State) {
    MutexInv(s) && ListInv(s) && HandoffInv(s) && CountInv(s) && ReplyInv(s)
  }

  lemma OwnerOf(s: State)
    requires MutexInv(s)
    ensures s.mutex == None <==> !Owns(s.inotify) && !Owns(s.socket)
    ensures !(Owns(s.inotify) && Owns(s.socket))
  {
    if s.mutex.Some? {
      assert s.mutex.value.Inotify? || s.mutex.value.Socket?;
    }
  }

  /** Only the mutex and the program counter of the thread that moves matter. */
  lemma StepKeepsMutex(s: State, t: Tid, input: Input)
    requires MutexInv(s) && Step(s, t, input).Some?
    ensures MutexInv(Step(s, t, input).value)
  {
    OwnerOf(s);
    var s' := Step(s, t, input).value;
    OwnershipMoves(s, t, input);
    if t.Inotify? {
      assert s'.socket == s.socket;
    } else {
      assert s'.inotify == s.inotify;
    }
  }

  lemma OwnershipMoves(s: State, t: Tid, input: Input)
    requires Step(s, t, input).Some?
    ensures var s', pc := Step(s, t, input).value, PcOf(s, t);
            && Owns(PcOf(s', t)) == (pc.Lock1? || pc.Lock2? || pc.Delete? || pc.Push?)
            && s'.mutex == if pc.Lock1? || pc.Lock2? then Some(t)
                           else if pc.Section1? || pc.Clear? then None else s.mutex
    ensures PcOf(s, t).Lock1? || PcOf(s, t).Lock2? ==> s.mutex == None
  {
  }

  lemma StepKeepsList(s: State, t: Tid, input: Input)
    requires ListInv(s) && Step(s, t, input).Some?
    ensures ListInv(Step(s, t, input).value)
  {
    var pc := PcOf(s, t);
    if pc.Delete? {
      DeleteKeepsList(s, t, input);
    } else if pc.Section1? && pc.path !in s.regList {
      InsertKeepsList(s, t, input);
    } else {
      OthersKeepList(s, t, input);
    }
  }

  lemma DeleteKeepsList(s: State, t: Tid, input: Input)
    requires ListInv(s) && PcOf(s, t).Delete?
    ensures ListInv(Step(s, t, input).value)
  {
    var s', p := Step(s, t, input).value, PcOf(s, t).path;
    RemoveFirstMembers(s.regList, p);
    assert Holds(PcOf(s, t), p) && s'.regList == RemoveFirst(s.regList, p);
    assert forall q :: !Holds(PcOf(s', t), q);
    assert forall q :: Holds(PcOf(s, t), q) <==> q == p;
  }

  lemma InsertKeepsList(s: State, t: Tid, input: Input)
    requires ListInv(s) && PcOf(s, t).Section1? && PcOf(s, t).path !in s.regList
    ensures ListInv(Step(s, t, input).value)
  {
    var s', p := Step(s, t, input).value, PcOf(s, t).path;
    assert s'.regList == s.regList + [p];
    assert forall q :: q in s'.regList <==> q in s.regList || q == p;
    assert forall q :: Holds(PcOf(s', t), q) <==> q == p;
    assert forall q :: !Holds(PcOf(s, t), q);
  }

  /** Every other step leaves the list and what the thread holds as they were. */
  lemma OthersKeepList(s: State, t: Tid, input: Input)
    requires ListInv(s) && Step(s, t, input).Some? && !PcOf(s, t).Delete?
    requires PcOf(s, t).Section1? ==> PcOf(s, t).path in s.regList
    ensures ListInv(Step(s, t, input).value)
  {
    var s' := Step(s, t, input).value;
    SameHolds(s, t, input);
    if t.Inotify? {
      assert s'.socket == s.socket;
    } else {
      assert s'.inotify == s.inotify;
    }
  }

  lemma SameHolds(s: State, t: Tid, input: Input)
    requires Step(s, t, input).Some? && !PcOf(s, t).Delete?
    requires PcOf(s, t).Section1? ==> PcOf(s, t).path in s.regList
    ensures var s' := Step(s, t, input).value;
            s'.regList == s.regList && forall q :: Holds(PcOf(s', t), q) <==> Holds(PcOf(s, t), q)
  {
  }

  lemma StepKeepsHandoff(s: State, t: Tid, input: Input)
    requires MutexInv(s) && ListInv(s) && HandoffInv(s) && Step(s, t, input).Some?
    ensures HandoffInv(Step(s, t, input).value)
  {
    OwnerOf(s);
    assert PcOf(s, t).Section1? ==> (PcOf(s, t).path in s.regList <==>
      Holds(s.inotify, PcOf(s, t).path) || Holds(s.socket, PcOf(s, t).path));
  }

  lemma StepKeepsCounts(s: State, t: Tid, input: Input)
    requires MutexInv(s) && HandoffInv(s) && CountInv(s) && Step(s, t, input).Some?
    ensures CountInv(Step(s, t, input).value)
  {
    OwnerOf(s);
  }

  lemma StepKeepsReplies(s: State, t: Tid, input: Input)
    requires HandoffInv(s) && ReplyInv(s) && Step(s, t, input).Some?
    ensures ReplyInv(Step(s, t, input).value)
  {
    var s' := Step(s, t, input).value;
    DoneGrows(s, t, input);
    if PcOf(s, t).Wait? {
      assert t == Socket
        && s'.replies == s.replies + [Reply(s.socket.path, s.retQueue[0] - MS_ERR_MAX, Handed(s.socket.ticket))];
    } else {
      assert forall i :: 0 <= i < |s'.replies| && s'.replies[i].origin.Handed? ==>
        i < |s.replies| && s'.replies[i] == s.replies[i];
    }
  }

  lemma DoneGrows(s: State, t: Tid, input: Input)
    requires Step(s, t, input).Some?
    ensures s.done <= Step(s, t, input).value.done && s.replies <= Step(s, t, input).value.replies
    ensures PcOf(s, t).Wait? ==> Step(s, t, input).value.done == s.done
    ensures !PcOf(s, t).Wait? ==>
              var after := Step(s, t, input).value.replies;
              |after| <= |s.replies| + 1 && (|after| > |s.replies| ==> !after[|s.replies|].origin.Handed?)
  {
  }

  lemma StepKeepsInv(s: State, t: Tid, input: Input)
    requires Inv(s) && Step(s, t, input).Some?
    ensures Inv(Step(s, t, input).value)
  {
    StepKeepsMutex(s, t, input);
    StepKeepsList(s, t, input);
    StepKeepsHandoff(s, t, input);
    StepKeepsCounts(s, t, input);
    StepKeepsReplies(s, t, input);
  }

  /** The invariant holds after every interleaving. */
  lemma {:induction false} RunKeepsInv(s: State, turns: seq<Turn>)
    requires Inv(s)
    ensures Inv(Run(s, turns))
    decreases |turns|
  {
    if turns != [] {
      var step := Step(s, turns[0].who, turns[0].input);
      if step.Some? {
        StepKeepsInv(s, turns[0].who, turns[0].input);
        RunKeepsInv(step.value, turns[1..]);
      } else {
        RunKeepsInv(s, turns[1..]);
      }
    }
  }

  // ----- What it gives, for every interleaving -----

  /** soc_queue is set only while the socket thread waits for a registration
      that the inotify thread is still doing or whose reply it just pushed;
      the reply queue never holds two items; a waiting thread's item, once
      decoded, is the result for its own path. */
  lemma HandoffIsSafe(turns: seq<Turn>)
    ensures var s := Run(INIT, turns);
            && |s.retQueue| <= 1
            && (s.socQueue ==> s.inotify.Clear?
                               || (s.socket.Wait? && Coming(s, s.socket.path, s.socket.ticket)))
            && (s.socket.Wait? && s.retQueue != [] ==>
                  s.socket.ticket < |s.done|
                  && s.done[s.socket.ticket] == Registration(s.socket.path, s.retQueue[0] - MS_ERR_MAX))
  {
    RunKeepsInv(INIT, turns);
  }

  /** No client ever gets the result of another path or of another attempt. */
  lemma RepliesAreRight(turns: seq<Turn>, i: nat)
    requires i < |Run(INIT, turns).replies|
    ensures var s := Run(INIT, turns);
            s.replies[i].origin.Handed? ==>
              s.replies[i].origin.ticket < |s.done|
              && s.done[s.replies[i].origin.ticket] == Registration(s.replies[i].path, s.replies[i].result)
  {
    RunKeepsInv(INIT, turns);
  }

  /** reg_list is duplicate-free and lists exactly the paths being registered;
      the two threads never register the same path at the same time. */
  lemma RegListIsExact(turns: seq<Turn>)
    ensures var s := Run(INIT, turns);
            && NoDup(s.regList)
            && (forall p :: p in s.regList <==> Holds(s.inotify, p) || Holds(s.socket, p))
            && (forall p :: !(Holds(s.inotify, p) && Holds(s.socket, p)))
  {
    RunKeepsInv(INIT, turns);
  }

  /** At rest, every MS_ERR_NOW_REGISTER_FILE given to the socket thread was
      matched by exactly one push and one pop. */
  lemma RepliesAreConserved(turns: seq<Turn>)
    ensures var s := Run(INIT, turns);
            s.inotify.Idle? && s.socket.Idle? ==> s.asked == s.pushed == s.popped && s.retQueue == [] && !s.socQueue
  {
    RunKeepsInv(INIT, turns);
  }

  // ----- Progress -----

  /** Steps the inotify thread needs until it pushes. */
  function Distance(pc: Pc): nat {
    match pc
    case Inserting(_) => 4
    case Lock2(_, _) => 3
    case Delete(_, _) => 2
    case Push(_, _) => 1
    case _ => 0
  }

  function Turns(t: Tid, turns: seq<Turn>): nat {
    if turns == [] then 0 else (if turns[0].who == t then 1 else 0) + Turns(t, turns[1..])
  }

  /** While the socket thread is blocked without a reply, the inotify thread
      is one to four steps from the push and its next step is enabled. */
  lemma WaiterHasHelp(s: State, input: Input)
    requires Inv(s) && s.socket.Wait? && s.retQueue == []
    ensures 1 <= Distance(s.inotify) <= 4 && Step(s, Inotify, input).Some?
    ensures var s' := Step(s, Inotify, input).value;
            s'.socket == s.socket
            && (if Distance(s.inotify) == 1 then s'.retQueue != []
                else s'.retQueue == [] && Distance(s'.inotify) + 1 == Distance(s.inotify))
  {
    OwnerOf(s);
  }

  /** However the turns fall, once the inotify thread has had that many of
      them the reply has arrived: after some prefix of the schedule the
      blocked socket thread finds an item. */
  lemma {:induction false} WaiterIsServed(s: State, turns: seq<Turn>) returns (n: nat)
    requires Inv(s) && s.socket.Wait? && s.retQueue == []
    requires Turns(Inotify, turns) >= Distance(s.inotify)
    ensures n <= |turns|
    ensures Run(s, turns[..n]).socket == s.socket && Run(s, turns[..n]).retQueue != []
    decreases |turns|
  {
    WaiterHasHelp(s, turns[0].input);
    var step := Step(s, turns[0].who, turns[0].input);
    var s' := if step.Some? then step.value else s;
    if step.Some? {
      StepKeepsInv(s, turns[0].who, turns[0].input);
    }
    if s'.retQueue != [] {
      n := 1;
      assert turns[..1][1..] == [];
      assert Run(s, turns[..1]) == Run(s', []);
    } else {
      var m := WaiterIsServed(s', turns[1..]);
      n := m + 1;
      assert turns[..n][1..] == turns[1..][..m];
    }
  }

  /** No deadlock: a blocked thread always faces one that can move. */
  lemma NeverStuck(turns: seq<Turn>, t: Tid, input: Input)
    ensures var s := Run(INIT, turns);
            Step(s, t, input).None? ==> Step(s, if t.Inotify? then Socket else Inotify, input).Some?
  {
    RunKeepsInv(INIT, turns);
    OwnerOf(Run(INIT, turns));
  }

  // ----- The critical sections as they are written -----

  /** What the two sections of ms_register_file share. */
  datatype Shared = Shared(regList: seq<CString>, socQueue: bool, retQueue: seq<int>)

  function SharedOf(s: State): Shared {
    Shared(s.regList, s.socQueue, s.retQueue)
  }

  /** The first section: enter the path, or ask for a reply if that is wanted. */
  function Claimed(h: Shared, path: CString, wantsReply: bool): Shared {
    if path !in h.regList then h.(regList := h.regList + [path])
    else if wantsReply then h.(socQueue := true)
    else h
  }

  /** The last section: take the path off the list, reply if asked, forget who asked. */
  function Released(h: Shared, path: CString, res: int): Shared {
    h.(regList := RemoveFirst(h.regList, path),
       retQueue := if h.socQueue then h.retQueue + [res + MS_ERR_MAX] else h.retQueue,
       socQueue := false)
  }

  /** They are steps of the protocol: entering is one step; leaving is three,
      which only the waiter's pop can come between. */
  lemma SectionsAreSteps(s: State, t: Tid, input: Input)
    requires Step(s, t, input).Some?
    ensures var pc, after := PcOf(s, t), Step(s, t, input).value;
            && (pc.Section1? ==> SharedOf(after) == Claimed(SharedOf(s), pc.path, t.Socket?))
            && (pc.Delete? ==>
                  var second := Step(after, t, input).value;
                  var third := Step(second, t, input).value;
                  SharedOf(third) == Released(SharedOf(s), pc.path, pc.res))
  {
  }

  class Registrar {
    const list: RegisterList
    var soc_queue: bool
    var ret_queue: seq<int>

    constructor ()
      ensures Now() == Shared([], false, []) && fresh(list)
    {
      list := new RegisterList();
      soc_queue, ret_queue := false, [];
    }

    ghost function Now(): Shared
      reads this, list
    {
      Shared(list.reg_list, soc_queue, ret_queue)
    }

    /** The first section of ms_register_file; MS_ERR_NONE means that the caller goes on to register. */
    method Claim(path: CString, wantsReply: bool) returns (res: int)
      modifies this`soc_queue, list
      ensures Now() == Claimed(old(Now()), path, wantsReply)
      ensures res == if path in old(list.reg_list) then MS_ERR_NOW_REGISTER_FILE else MS_ERR_NONE
    {
      var found := list.Find(path);
      if !found {
        list.Insert(path);
      } else {
        if wantsReply {
          soc_queue := true;
        }
        return MS_ERR_NOW_REGISTER_FILE;
      }
      res := MS_ERR_NONE;
    }

    /** The last section. */
    method Release(path: CString, res: int)
      modifies this, list
      ensures Now() == Released(old(Now()), path, res)
    {
      list.Delete(path);
      if soc_queue {
        ret_queue := ret_queue + [res + MS_ERR_MAX];
      }
      soc_queue := false;
    }
  }
}
