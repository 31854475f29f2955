/** The scan-request scheduler: _insert_array, the coalescing pending array,
    and ms_scan_thread, which drains scan_queue into it and serves its head. */
module Scheduler {
  import opened Base

  datatype ScanType = Invalid | Part | All | PowerOff {
    /** The numeric value that _insert_array compares; POWEROFF is 10000. */
    function Rank(): nat {
      match this
      case Invalid => 0
      case Part => 1
      case All => 2
      case PowerOff => 10000
    }

    predicate IsScan() {
      Part? || All?
    }
  }

  /** A pointer to a ms_scan_data_t: `id` is the identity of the object. */
  datatype Request = Request(id: nat, scanType: ScanType, storage: Storage)

  // ----- The pending array -----

  /** A pending request gives way to the new request `x`. */
  predicate Beats(x: Request, pending: Request) {
    && !pending.scanType.PowerOff?
    && pending.storage == x.storage
    && pending.scanType.Rank() > x.scanType.Rank()
  }

  /** Within a storage INVALID displaces scans of both kinds, PART displaces ALL,
      and nothing else displaces anything. */
  lemma GivesWay(x: Request, pending: Request)
    ensures Beats(x, pending) <==>
            && pending.storage == x.storage
            && ((x.scanType.Invalid? && pending.scanType.IsScan()) || (x.scanType.Part? && pending.scanType.All?))
  {
  }

  function Replaced(a: seq<Request>, x: Request): (r: seq<Request>)
    ensures |r| == |a|
    ensures forall i {:trigger r[i]} :: 0 <= i < |a| ==> r[i] == if Beats(x, a[i]) then x else a[i]
  {
    seq(|a|, i requires 0 <= i < |a| => if Beats(x, a[i]) then x else a[i])
  }

  predicate BeatsSome(a: seq<Request>, x: Request) {
    exists i :: 0 <= i < |a| && Beats(x, a[i])
  }

  function Inserted(a: seq<Request>, x: Request): seq<Request> {
    if x.scanType.PowerOff? then [x] + a
    else if BeatsSome(a, x) then Replaced(a, x)
    else a + [x]
  }

  predicate Matches(r: Request, storage: Storage) {
    !r.scanType.PowerOff? && r.storage == storage
  }

  /** The requests of one storage, in order. */
  function Of(a: seq<Request>, storage: Storage): seq<Request> {
    if a == [] then []
    else (if Matches(a[0], storage) then [a[0]] else []) + Of(a[1..], storage)
  }

  lemma {:induction false} OfConcat(a: seq<Request>, b: seq<Request>, storage: Storage)
    ensures Of(a + b, storage) == Of(a, storage) + Of(b, storage)
  {
    if a == [] {
      assert a + b == b;
    } else {
      assert (a + b)[1..] == a[1..] + b;
      OfConcat(a[1..], b, storage);
    }
  }

  lemma OfSnoc(a: seq<Request>, x: Request, storage: Storage)
    ensures Of(a + [x], storage) == if Matches(x, storage) then Of(a, storage) + [x] else Of(a, storage)
  {
    OfConcat(a, [x], storage);
  }

  lemma {:induction false} OfMembers(a: seq<Request>, storage: Storage)
    ensures forall r :: r in Of(a, storage) <==> r in a && Matches(r, storage)
  {
    if a != [] {
      OfMembers(a[1..], storage);
      assert forall r :: r in a <==> r == a[0] || r in a[1..];
    }
  }

  lemma ReplacedConcat(a: seq<Request>, b: seq<Request>, x: Request)
    ensures Replaced(a + b, x) == Replaced(a, x) + Replaced(b, x)
  {
  }

  lemma {:induction false} OfReplaced(a: seq<Request>, x: Request, storage: Storage)
    requires !x.scanType.PowerOff?
    ensures Of(Replaced(a, x), storage)
         == if x.storage == storage then Replaced(Of(a, storage), x) else Of(a, storage)
  {
    if a != [] {
      var own := if Matches(a[0], storage) then [a[0]] else [];
      OfReplaced(a[1..], x, storage);
      assert a == [a[0]] + a[1..];
      ReplacedConcat([a[0]], a[1..], x);
      OfConcat(Replaced([a[0]], x), Replaced(a[1..], x), storage);
      ReplacedConcat(own, Of(a[1..], storage), x);
    }
  }

  /** Insertion works on each storage separately. */
  lemma OfInserted(a: seq<Request>, x: Request, storage: Storage)
    ensures Of(Inserted(a, x), storage)
         == if Matches(x, storage) then Inserted(Of(a, storage), x) else Of(a, storage)
  {
    if x.scanType.PowerOff? {
      OfConcat([x], a, storage);
    } else {
      OfReplaced(a, x, storage);
      OfSnoc(a, x, storage);
      OfMembers(a, storage);
      if x.storage == storage {
        assert BeatsSome(a, x) <==> BeatsSome(Of(a, storage), x) by {
          if BeatsSome(a, x) {
            var i :| 0 <= i < |a| && Beats(x, a[i]);
            assert a[i] in Of(a, storage);
          }
          if BeatsSome(Of(a, storage), x) {
            var i :| 0 <= i < |Of(a, storage)| && Beats(x, Of(a, storage)[i]);
            assert Of(a, storage)[i] in a;
          }
        }
      }
    }
  }

  ghost predicate Nondecreasing(b: seq<Request>) {
    forall i, j :: 0 <= i < j < |b| ==> b[i].scanType.Rank() <= b[j].scanType.Rank()
  }

  ghost predicate OneStorage(b: seq<Request>, storage: Storage) {
    forall i :: 0 <= i < |b| ==> Matches(b[i], storage)
  }

  function Repeat(x: Request, n: nat): (r: seq<Request>)
    ensures |r| == n
    ensures forall i {:trigger r[i]} :: 0 <= i < n ==> r[i] == x
  {
    seq(n, _ => x)
  }

  /** How many pending requests of the storage are kept. */
  function Kept(b: seq<Request>, x: Request): (k: nat)
    ensures k <= |b|
    ensures forall i :: 0 <= i < k ==> !Beats(x, b[i])
    ensures k < |b| ==> Beats(x, b[k])
  {
    if b == [] || Beats(x, b[0]) then 0 else 1 + Kept(b[1..], x)
  }

  lemma BeatenSuffix(b: seq<Request>, x: Request, storage: Storage, i: nat)
    requires Nondecreasing(b) && OneStorage(b, storage) && Matches(x, storage)
    requires Kept(b, x) <= i < |b|
    ensures Beats(x, b[i])
  {
    assert b[Kept(b, x)].scanType.Rank() <= b[i].scanType.Rank();
  }

  /** On the pending requests of one storage an insertion replaces exactly a
      suffix: by one copy of the new object for each request in it. */
  lemma InsertedShape(b: seq<Request>, x: Request, storage: Storage)
    requires Nondecreasing(b) && OneStorage(b, storage) && Matches(x, storage)
    ensures var k := Kept(b, x);
            Inserted(b, x) == b[..k] + Repeat(x, if k == |b| then 1 else |b| - k)
  {
    var k := Kept(b, x);
    if k < |b| {
      assert BeatsSome(b, x);
      ReplacedSuffix(b, x, storage, k);
    } else {
      assert b[..k] == b && Repeat(x, 1) == [x];
    }
  }

  lemma ReplacedSuffix(b: seq<Request>, x: Request, storage: Storage, k: nat)
    requires Nondecreasing(b) && OneStorage(b, storage) && Matches(x, storage) && k == Kept(b, x) < |b|
    ensures Replaced(b, x) == b[..k] + Repeat(x, |b| - k)
  {
    var shape := b[..k] + Repeat(x, |b| - k);
    forall i | 0 <= i < |b| ensures Replaced(b, x)[i] == shape[i] {
      if i >= k {
        BeatenSuffix(b, x, storage, i);
      }
    }
  }

  /** It keeps the order and makes the new request the last and the largest. */
  lemma InsertedOrder(b: seq<Request>, x: Request, storage: Storage)
    requires Nondecreasing(b) && OneStorage(b, storage) && Matches(x, storage)
    ensures var r := Inserted(b, x);
            && Nondecreasing(r) && OneStorage(r, storage) && r != [] && r[|r| - 1] == x
            && forall i :: 0 <= i < |r| ==> r[i].scanType.Rank() <= x.scanType.Rank()
  {
    InsertedShape(b, x, storage);
    var k := Kept(b, x);
    assert forall i :: 0 <= i < k ==> b[i].scanType.Rank() <= x.scanType.Rank();
  }

  /** POWEROFF requests come first. */
  ghost predicate PowerOffFirst(a: seq<Request>) {
    forall i, j :: 0 <= i < j < |a| && a[j].scanType.PowerOff? ==> a[i].scanType.PowerOff?
  }

  lemma InsertedKeepsPowerOff(a: seq<Request>, x: Request)
    requires PowerOffFirst(a)
    ensures PowerOffFirst(Inserted(a, x))
    ensures a != [] && a[0].scanType.PowerOff? ==> Inserted(a, x)[0].scanType.PowerOff?
  {
  }

  // ----- The thread -----

  datatype Action =
    | Connect | ConnectFailed | SetUpdating | DeleteAll | RegisterStart | ValidateStart | Scan
    | RegisterEnd | ValidateEnd | DeleteInvalid | SetUpdated | Disconnect | UpdateMmcInfo

  /** Where the thread stands: about to read the queue length, or having read it. */
  datatype Pc = Top | Counted(length: nat) | Stopped

  /** How a request that was taken up fared: whether the database could be
      opened, and whether power_off was seen behind the scan. */
  datatype Fate = Fate(connects: bool, powerOff: bool)

  /** The thread's variables and a history: what was moved from the queue to
      the array, which requests were taken up, how they fared, and what was done for them. */
  datatype State = State(
    queue: seq<Request>, garray: seq<Request>, pc: Pc, moved: seq<Request>, taken: seq<Request>, fates: seq<Fate>,
    trace: seq<Action>)

  /** A producer pushes a request, or the thread moves. */
  datatype Event = Arrive(request: Request) | Tick(connects: bool, powerOff: bool)

  /** The actions for one request; the last ones are missing when power_off is seen after the scan. */
  function Block(r: Request, connects: bool, powerOff: bool): seq<Action> {
    if !connects then [ConnectFailed]
    else
      [Connect, SetUpdating]
      + (if r.scanType.All? then [DeleteAll] else [])
      + [RegisterStart]
      + (if r.scanType.Part? then [ValidateStart] else [])
      + [Scan]
      + if powerOff then [Disconnect] else
          [RegisterEnd]
          + (if r.scanType.Part? then [ValidateEnd, DeleteInvalid] else [])
          + [SetUpdated, Disconnect]
          + (if r.scanType.All? && r.storage.External? then [UpdateMmcInfo] else [])
  }

  function MoveOne(s: State): State
    requires s.queue != []
  {
    s.(queue := s.queue[1..], garray := Inserted(s.garray, s.queue[0]), moved := s.moved + [s.queue[0]], pc := Top)
  }

  function TakeHead(s: State, connects: bool, powerOff: bool): State
    requires s.garray != []
  {
    var r := s.garray[0];
    if r.scanType.PowerOff? then s.(garray := s.garray[1..], pc := Stopped)
    else s.(garray := s.garray[1..], taken := s.taken + [r], fates := s.fates + [Fate(connects, powerOff)],
            trace := s.trace + Block(r, connects, powerOff), pc := if connects && powerOff then Stopped else Top)
  }

  function Next(s: State, e: Event): State {
    match e
    case Arrive(r) => s.(queue := s.queue + [r])
    case Tick(connects, powerOff) =>
      match s.pc
      case Stopped => s
      case Top => s.(pc := Counted(|s.queue|))
      case Counted(n) =>
        if n == 0 && s.garray != [] then TakeHead(s, connects, powerOff)
        else if s.queue != [] then MoveOne(s)
        else s  // blocked in g_async_queue_pop
  }

  function Run(s: State, events: seq<Event>): State
    decreases |events|
  {
    if events == [] then s else Run(Next(s, events[0]), events[1..])
  }

  const INIT := State([], [], Top, [], [], [], [])

  class ScanThread {
    var scan_queue: seq<Request>
    var garray: seq<Request>
    var pc: Pc
    ghost var moved: seq<Request>
    ghost var taken: seq<Request>
    ghost var fates: seq<Fate>
    var trace: seq<Action>

    ghost function Now(): State
      reads this
    {
      State(scan_queue, garray, pc, moved, taken, fates, trace)
    }

    constructor ()
      ensures Now() == INIT
    {
      scan_queue, garray, pc, moved, taken, fates, trace := [], [], Top, [], [], [], [];
    }

    /** _insert_array: the array is edited in place while it is scanned. */
    method InsertArray(insert_data: Request)
      modifies this`garray
      ensures garray == Inserted(old(garray), insert_data)
    {
      var insert_ok := false;
      var len := |garray|;
      if insert_data.scanType.PowerOff? {
        garray := [insert_data] + garray;
        return;
      }
      var i := 0;
      while i < len
        invariant 0 <= i <= len == |garray|
        invariant forall k :: 0 <= k < i ==> garray[k] == Replaced(old(garray), insert_data)[k]
        invariant forall k :: i <= k < len ==> garray[k] == old(garray)[k]
        invariant insert_ok <==> exists k :: 0 <= k < i && Beats(insert_data, old(garray)[k])
      {
        var data := garray[i];
        if !data.scanType.PowerOff? {
          if data.storage == insert_data.storage {
            if data.scanType.Rank() > insert_data.scanType.Rank() {
              garray := garray[..i] + garray[i + 1..];
              garray := garray[..i] + [insert_data] + garray[i..];
              insert_ok := true;
            }
          }
        }
        i := i + 1;
      }
      if !insert_ok {
        garray := garray + [insert_data];
        assert garray == old(garray) + [insert_data];
      } else {
        assert garray == Replaced(old(garray), insert_data);
      }
    }

    /** The body of the thread loop for one request that is not POWEROFF;
        `stop` means that power_off was seen after the scan. */
    method Serve(scan_data: Request, connects: bool, powerOff: bool) returns (stop: bool)
      modifies this`trace
      ensures stop == (connects && powerOff)
      ensures trace == old(trace) + Block(scan_data, connects, powerOff)
    {
      if !connects {
        trace := trace + [ConnectFailed];
        return false;
      }
      trace := trace + [Connect, SetUpdating];
      if scan_data.scanType.All? {
        trace := trace + [DeleteAll];
      }
      trace := trace + [RegisterStart];
      if scan_data.scanType.Part? {
        trace := trace + [ValidateStart];
      }
      trace := trace + [Scan];
      if powerOff {
        trace := trace + [Disconnect];
        return true;
      }
      trace := trace + [RegisterEnd];
      if scan_data.scanType.Part? {
        trace := trace + [ValidateEnd, DeleteInvalid];
      }
      trace := trace + [SetUpdated, Disconnect];
      if scan_data.storage.External? && scan_data.scanType.All? {
        trace := trace + [UpdateMmcInfo];
      }
      stop := false;
    }

    /** A move of the thread: read the queue length, or act on the length read. */
    method Move(connects: bool, powerOff: bool)
      modifies this
      ensures Now() == Next(old(Now()), Tick(connects, powerOff))
    {
      match pc
      case Stopped =>
      case Top =>
        pc := Counted(|scan_queue|);
      case Counted(length) =>
        if |garray| != 0 && length == 0 {
          var scan_data := garray[0];
          garray := garray[1..];
          if scan_data.scanType.PowerOff? {
            pc := Stopped;
            return;
          }
          taken, fates := taken + [scan_data], fates + [Fate(connects, powerOff)];
          var stop := Serve(scan_data, connects, powerOff);
          pc := if stop then Stopped else Top;
        } else if |scan_queue| != 0 {
          var insert_data := scan_queue[0];
          scan_queue := scan_queue[1..];
          moved := moved + [insert_data];
          InsertArray(insert_data);
          pc := Top;
        }
    }

    /** ms_scan_thread interleaved with its producers, along any script. */
    method Loop(events: seq<Event>)
      modifies this
      ensures Now() == Run(old(Now()), events)
    {
      var i := 0;
      while i < |events|
        decreases |events| - i
        invariant 0 <= i <= |events|
        invariant Run(old(Now()), events) == Run(Now(), events[i..])
      {
        assert events[i..][1..] == events[i + 1..];
        match events[i] {
          case Arrive(r) => scan_queue := scan_queue + [r];
          case Tick(connects, powerOff) => Move(connects, powerOff);
        }
        i := i + 1;
      }
    }
  }
}
