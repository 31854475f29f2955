/** The inotify event loop (ms_inoti_thread): what each event does to the
    database, the watch list and the create list. */
module InotifyEvents {
  import opened Base
  import opened FileTree
  import opened MediaDb
  import opened WatchList
  import opened CreateList
  import opened Polls
  import opened RecursiveWalk
  import opened Rename
  import opened WalkEnds

  const IN_CLOSE_WRITE: bv32 := 0x8
  const IN_MOVED_FROM: bv32 := 0x40
  const IN_MOVED_TO: bv32 := 0x80
  const IN_CREATE: bv32 := 0x100
  const IN_DELETE: bv32 := 0x200
  const IN_ISDIR: bv32 := 0x4000_0000

  const MS_FILE_NAME_LEN_MAX: nat := 255
  const POWEROFF_DIR_NAME: CString := "_POWER_OFF"
  const MS_DB_UPDATE_NOTI_PATH: CString := "/opt/data/file-manager-service"
  const FILEOPERATION_END: CString := "_FILEOPERATION_END"

  /** A decoded struct inotify_event; `len` is the length of its name field with the padding. */
  datatype Event = Event(wd: int, name: CString, mask: bv32, len: nat)

  datatype Kind = MovedFrom | MovedTo | Creation | Deleted | CloseWrite | Other

  predicate Has(mask: bv32, bit: bv32) {
    mask & bit != 0
  }

  /** The order in which the loop tests the bits; only files are tested for the last one. */
  function KindOf(mask: bv32): Kind {
    if Has(mask, IN_MOVED_FROM) then MovedFrom
    else if Has(mask, IN_MOVED_TO) then MovedTo
    else if Has(mask, IN_CREATE) then Creation
    else if Has(mask, IN_DELETE) then Deleted
    else if Has(mask, IN_CLOSE_WRITE) then CloseWrite
    else Other
  }

  /** The masks that the kernel sends, with the values of <sys/inotify.h>: one
      bit for what happened, and one more if it happened to a directory. */
  lemma KindsOfEvents(isdir: bv32, other: bv32)
    requires isdir == 0 || isdir == 0x4000_0000
    ensures KindOf(0x40 | isdir) == MovedFrom && KindOf(0x80 | isdir) == MovedTo
    ensures KindOf(0x100 | isdir) == Creation && KindOf(0x200 | isdir) == Deleted && KindOf(0x8 | isdir) == CloseWrite
    ensures other & 0x3c8 == 0 ==> KindOf(other | isdir) == Other
    ensures other & 0x4000_0000 == 0 ==> (Has(other | isdir, IN_ISDIR) <==> isdir != 0)
  {
  }

  /** `(prev_mask & IN_ISDIR) & IN_CREATE`: never true, so a file written
      directly after its directory was created gets no special treatment. */
  lemma NeverDirectoryCreated(prev_mask: bv32)
    ensures !Has(prev_mask & IN_ISDIR, IN_CREATE)
  {
    assert (prev_mask & IN_ISDIR) & IN_CREATE == prev_mask & (IN_ISDIR & IN_CREATE);
    assert IN_ISDIR & IN_CREATE == 0;
  }

  /** Names and descriptors that the loop acts upon. */
  predicate Considered(wd: int, name: CString) {
    name != POWEROFF_DIR_NAME && name != FILEOPERATION_END && !Hidden(name) && wd >= 1
  }

  predicate FittingLen(len: nat) {
    0 < len <= MS_FILE_NAME_LEN_MAX
  }

  /** An event is passed over only for its name - that of the power-off directory,
      the end of a file operation, or one that begins with a dot -, for a
      descriptor below 1, for the length of its name, or because its path is too long. */
  lemma PassedOverIff(ws: seq<Watch>, e: Event)
    requires ws != []
    ensures Subject(ws, e).None? <==>
              || e.name == "_POWER_OFF" || e.name == "_FILEOPERATION_END" || "." <= e.name
              || e.wd <= 0 || e.len == 0 || e.len > 255
              || |Join(ws[Resolve(ws, e.wd)].name, e.name)| > MS_FILE_PATH_LEN_MAX
  {
  }

  /** What the loop remembers of an earlier event. */
  datatype Prev = Prev(mask: bv32, wd: int, name: CString)

  datatype View = View(watches: seq<Watch>, created: seq<Created>, db: Db, prev: Prev)

  /** An event with what else decides its effect: the tree at that time, the
      kernel's answers to inotify_add_watch, and whether an overwritten file is
      ignored or else refreshed without error. */
  datatype Notice = Notice(event: Event, fs: Fs, kernel: CString -> int, refreshed: bool)

  function PathFor(ws: seq<Watch>, wd: int, name: CString): Option<CString> {
    if ws == [] then None
    else
      var full := StrAppend(ws[Resolve(ws, wd)].name, name);
      if full.Ok? then Some(full.value) else None
  }

  /** The path an event is about, if it is one that the loop acts upon. */
  function Subject(ws: seq<Watch>, e: Event): Option<CString> {
    if Considered(e.wd, e.name) && FittingLen(e.len) then PathFor(ws, e.wd, e.name) else None
  }

  function Forgotten(p: Prev): Prev {
    p.(mask := 0, wd := 0)
  }

  /** What an event of this kind on the file `c`, whose path is `path`, does. */
  function FileEffect(env: Env, v: View, c: Created, kind: Kind, path: CString, refreshed: bool): View {
    match kind
    case MovedFrom => v.(db := DeleteItem(env, v.db, path))
    case MovedTo => v.(db := Registered(env, v.db, path))
    case Creation => v.(created := v.created + [c])
    case Deleted => v.(db := DeleteItem(env, v.db, path))
    case CloseWrite =>
      var k := LastIndex(v.created, c);
      if k >= 0 then
        v.(db := Registered(env, v.db, path), created := WithoutAt(v.created, k), prev := Forgotten(v.prev))
      else if refreshed then v.(prev := Forgotten(v.prev))
      else v
    case Other => v
  }

  /** What one event on a file does. */
  function FileStep(env: Env, v: View, n: Notice): View {
    var e, path := n.event, Subject(v.watches, n.event);
    if path.None? then v
    else FileEffect(env, v, Created(e.wd, e.name), KindOf(e.mask), path.value, n.refreshed)
  }

  /** Where a directory that arrives is believed to have come from. */
  function Origin(v: View): Option<CString> {
    PathFor(v.watches, v.prev.wd, v.prev.name)
  }

  /** The walk that the event sets off, if any, comes to an end. */
  ghost predicate StepEnds(v: View, n: Notice) {
    var path := Subject(v.watches, n.event);
    Has(n.event.mask, IN_ISDIR) && path.Some? ==>
      match KindOf(n.event.mask)
      case MovedTo => Origin(v).Some? ==> Progresses(n.fs, Spot(path.value, Origin(v)))
      case Creation => Progresses(n.fs, Spot(path.value, None))
      case _ => true
  }

  /** A directory that arrives is taken for the one remembered as having left, whatever that was. */
  ghost function Arrival(env: Env, v: View, n: Notice, path: CString): View
    requires Origin(v).Some? ==> Progresses(n.fs, Spot(path, Origin(v)))
  {
    var from := Origin(v);
    if from.None? then v
    else
      var after := Follow(env, n.kernel, Both(v.watches, v.db), RenameWalk(n.fs, from.value, path));
      v.(watches := after.watches, db := after.db, prev := Forgotten(v.prev))
  }

  /** What one event on a directory does. */
  ghost function DirStep(env: Env, v: View, n: Notice): View
    requires Has(n.event.mask, IN_ISDIR) && StepEnds(v, n)
  {
    var e, path := n.event, Subject(v.watches, n.event);
    if path.None? then v
    else
      var both := Both(v.watches, v.db);
      match KindOf(e.mask)
      case MovedFrom => v.(prev := Prev(e.mask, e.wd, e.name))
      case MovedTo => Arrival(env, v, n, path.value)
      case Creation =>
        var after := RegisterSteps(env, n.kernel, both, Walk(n.fs, path.value));
        v.(watches := after.watches, db := after.db, prev := v.prev.(mask := e.mask))
      case Deleted => v.(watches := WithoutFirst(v.watches, path.value))
      case _ => v
  }

  ghost function LoopStep(env: Env, v: View, n: Notice): View
    requires StepEnds(v, n)
  {
    if Has(n.event.mask, IN_ISDIR) then DirStep(env, v, n) else FileStep(env, v, n)
  }

  /** All walks of the run come to an end. */
  ghost predicate RunEnds(env: Env, v: View, notices: seq<Notice>)
    decreases |notices|, 0
  {
    notices == [] ||
    var init, last := notices[..|notices| - 1], notices[|notices| - 1];
    RunEnds(env, v, init) && StepEnds(LoopRun(env, v, init), last)
  }

  ghost function LoopRun(env: Env, v: View, notices: seq<Notice>): View
    requires RunEnds(env, v, notices)
    decreases |notices|, 1
  {
    if notices == [] then v
    else LoopStep(env, LoopRun(env, v, notices[..|notices| - 1]), notices[|notices| - 1])
  }

  ghost predicate OnFiles(notices: seq<Notice>) {
    forall k :: 0 <= k < |notices| ==> !Has(notices[k].event.mask, IN_ISDIR)
  }

  /** Events on files set off no walk. */
  lemma {:induction false} FilesEnd(env: Env, v: View, notices: seq<Notice>)
    requires OnFiles(notices)
    ensures RunEnds(env, v, notices)
    decreases |notices|
  {
    if notices != [] {
      FilesEnd(env, v, notices[..|notices| - 1]);
    }
  }

  lemma {:induction false} RunEndsPrefix(env: Env, v: View, notices: seq<Notice>, count: nat)
    requires RunEnds(env, v, notices) && count <= |notices|
    ensures RunEnds(env, v, notices[..count])
    decreases |notices|
  {
    if count == |notices| {
      assert notices[..count] == notices;
    } else {
      var init := notices[..|notices| - 1];
      assert init[..count] == notices[..count];
      RunEndsPrefix(env, v, init, count);
    }
  }

  /** The view after the first `count` events. */
  ghost function ViewAfter(env: Env, v: View, notices: seq<Notice>, count: nat): View
    requires count <= |notices| && RunEnds(env, v, notices[..count])
  {
    LoopRun(env, v, notices[..count])
  }

  /** One more of the `end` events that are handled. */
  lemma ViewAfterNext(env: Env, v: View, notices: seq<Notice>, count: nat, end: nat)
    requires count < end <= |notices| && RunEnds(env, v, notices[..end])
    ensures RunEnds(env, v, notices[..count]) && RunEnds(env, v, notices[..count + 1])
    ensures StepEnds(ViewAfter(env, v, notices, count), notices[count])
    ensures ViewAfter(env, v, notices, count + 1) == LoopStep(env, ViewAfter(env, v, notices, count), notices[count])
  {
    var next := notices[..count + 1];
    assert notices[..end][..count + 1] == next && next[..count] == notices[..count];
    RunEndsPrefix(env, v, notices[..end], count + 1);
  }

  /** Why the loop ended; in the source it would wait for more events. */
  datatype Ending = NoMoreEvents | PowerOffSeen | PowerOffEvent

  /** How many events are handled, going on from event `k`: power_off is polled
      before each, and a power-off event is handled, too, and is the last one. */
  function EndOf(notices: seq<Notice>, polls: Script, k: nat): (end: (nat, Ending))
    requires k <= |notices|
    ensures k <= end.0 <= |notices|
    decreases |notices| - k
  {
    if k == |notices| then (k, NoMoreEvents)
    else if Yes(polls, k) then (k, PowerOffSeen)
    else if notices[k].event.name == POWEROFF_DIR_NAME then (k + 1, PowerOffEvent)
    else EndOf(notices, polls, k + 1)
  }

  /** No event is left out without a reason, and none is handled after it. */
  lemma {:induction false} EndOfTells(notices: seq<Notice>, polls: Script, k: nat, j: nat)
    requires k <= j < |notices|
    ensures var end := EndOf(notices, polls, k);
            && (j < end.0 ==> !Yes(polls, j))
            && (j < end.0 && notices[j].event.name == POWEROFF_DIR_NAME ==> j + 1 == end.0 && end.1.PowerOffEvent?)
            && (end.1.NoMoreEvents? <==> end.0 == |notices| && !end.1.PowerOffEvent?)
            && (end.1.PowerOffSeen? ==> end.0 < |notices| && Yes(polls, end.0))
            && (end.1.PowerOffEvent? ==> end.0 > k && notices[end.0 - 1].event.name == POWEROFF_DIR_NAME)
    decreases |notices| - k
  {
    if !Yes(polls, k) && notices[k].event.name != POWEROFF_DIR_NAME && k + 1 < |notices| {
      EndOfTells(notices, polls, k + 1, if j == k then k + 1 else j);
    }
  }

  class InotifyThread {
    const watch_list: InotiList
    const create_list: CreateFileList
    const svc: MediaService
    var prev_mask: bv32
    var prev_wd: int
    var prev_name: CString

    constructor (watch_list: InotiList, create_list: CreateFileList, svc: MediaService)
      ensures this.watch_list == watch_list && this.create_list == create_list && this.svc == svc
      ensures prev_mask == 0 && prev_wd == -1 && prev_name == ""
    {
      this.watch_list, this.create_list, this.svc := watch_list, create_list, svc;
      prev_mask, prev_wd, prev_name := 0, -1, "";
    }

    ghost predicate Valid()
      reads this, watch_list, watch_list.Repr, create_list, create_list.Repr
    {
      watch_list.Valid() && create_list.Valid()
    }

    ghost function Now(): View
      reads this, watch_list, create_list, svc
    {
      View(watch_list.watches, create_list.Contents(), svc.plugins, Prev(prev_mask, prev_wd, prev_name))
    }

    /** One event; false means that the loop ends. */
    method HandleEvent(n: Notice) returns (goOn: bool)
      requires Valid() && StepEnds(Now(), n)
      modifies this, watch_list, watch_list.Repr, create_list, create_list.Repr, svc
      ensures Valid()
      ensures fresh(create_list.Repr - old(create_list.Repr)) && fresh(watch_list.Repr - old(watch_list.Repr))
      ensures goOn <==> n.event.name != POWEROFF_DIR_NAME
      ensures Now() == LoopStep(svc.env, old(Now()), n)
    {
      var event := n.event;
      goOn := true;
      if event.name == POWEROFF_DIR_NAME {
        return false;
      } else if event.name == FILEOPERATION_END || Hidden(event.name) || event.wd < 1 {
        return;
      }
      if event.len != 0 && event.len <= MS_FILE_NAME_LEN_MAX {
        var path := watch_list.GetFullPath(event.wd, event.name);
        if path.Some? {
          HandlePath(n, path.value);
        }
      }
    }

    /** The two branches, for an event whose path is known. */
    method HandlePath(n: Notice, path: CString)
      requires Valid() && Subject(watch_list.watches, n.event) == Some(path) && StepEnds(Now(), n)
      modifies this, watch_list, watch_list.Repr, create_list, create_list.Repr, svc
      ensures Valid()
      ensures fresh(create_list.Repr - old(create_list.Repr)) && fresh(watch_list.Repr - old(watch_list.Repr))
      ensures Now() == LoopStep(svc.env, old(Now()), n)
    {
      if Has(n.event.mask, IN_ISDIR) {
        HandleDirectory(n, path);
      } else {
        HandleFile(n, path);
      }
    }

    /** The directory branch, for an event whose path is known. */
    method HandleDirectory(n: Notice, path: CString)
      requires Valid() && Subject(watch_list.watches, n.event) == Some(path)
      requires Has(n.event.mask, IN_ISDIR) && StepEnds(Now(), n)
      modifies this, watch_list, watch_list.Repr, svc
      ensures Valid() && fresh(watch_list.Repr - old(watch_list.Repr))
      ensures Now() == DirStep(svc.env, old(Now()), n)
    {
      var event := n.event;
      if Has(event.mask, IN_MOVED_FROM) {
        prev_mask, prev_wd, prev_name := event.mask, event.wd, event.name;
      } else if Has(event.mask, IN_MOVED_TO) {
        HandleArrival(n, path);
      } else if Has(event.mask, IN_CREATE) {
        var err :=
          DirectoryScanAndRegister(n.fs, n.kernel, watch_list, svc, path, Both(watch_list.watches, svc.plugins));
        prev_mask := event.mask;
      } else if Has(event.mask, IN_DELETE) {
        watch_list.RemoveWatch(path);
      }
    }

    /** A directory was moved here: it is taken for the one that left last. */
    method HandleArrival(n: Notice, path: CString)
      requires Valid() && (Origin(Now()).Some? ==> Progresses(n.fs, Spot(path, Origin(Now()))))
      modifies this, watch_list, watch_list.Repr, svc
      ensures Valid() && fresh(watch_list.Repr - old(watch_list.Repr))
      ensures Now() == Arrival(svc.env, old(Now()), n, path)
    {
      var full_path_from := watch_list.GetFullPath(prev_wd, prev_name);
      if full_path_from.None? {
        return;
      }
      var err := ScanRenamedFolder(n.fs, n.kernel, watch_list, svc, full_path_from.value, path,
                                   Both(watch_list.watches, svc.plugins));
      prev_mask, prev_wd := 0, 0;
    }

    /** A file is gone, or has been moved away. */
    method HandleGone(path: CString)
      requires Valid()
      modifies svc
      ensures Valid() && Now() == old(Now()).(db := DeleteItem(svc.env, old(svc.plugins), path))
    {
      var err := svc.DeletePath(path);
    }

    /** A file was created: it is registered when it is closed. */
    method HandleCreated(wd: int, name: CString)
      requires Valid()
      modifies create_list, create_list.Repr
      ensures Valid() && fresh(create_list.Repr - old(create_list.Repr))
      ensures Now() == old(Now()).(created := old(Now()).created + [Created(wd, name)])
    {
      create_list.Add(wd, name);
    }

    /** The file branch, for an event whose path is known. */
    method HandleFile(n: Notice, path: CString)
      requires Valid() && Subject(watch_list.watches, n.event) == Some(path)
      modifies this, create_list, create_list.Repr, svc
      ensures Valid() && fresh(create_list.Repr - old(create_list.Repr))
      ensures Now() == FileStep(svc.env, old(Now()), n)
    {
      var event := n.event;
      if Has(event.mask, IN_MOVED_FROM) {
        HandleGone(path);
      } else if Has(event.mask, IN_MOVED_TO) {
        var err := svc.RegisterFile(path);
      } else if Has(event.mask, IN_CREATE) {
        HandleCreated(event.wd, event.name);
      } else if Has(event.mask, IN_DELETE) {
        HandleGone(path);
      } else if Has(event.mask, IN_CLOSE_WRITE) {
        HandleCloseWrite(event.wd, event.name, path, n.refreshed);
      }
    }

    /** Register a new file and take it off the create list, if it is there. */
    method RegisterNew(node: CreateFileInfo?, path: CString, ghost k: int)
      requires Valid() && k < |create_list.nodes| && node == NodeAt(create_list.nodes, k)
      modifies create_list, create_list.Repr, svc
      ensures Valid() && create_list.Repr <= old(create_list.Repr)
      ensures Now() == old(Now()).(
                db := Registered(svc.env, old(svc.plugins), path),
                created := if k >= 0 then WithoutAt(old(create_list.Contents()), k) else old(create_list.Contents()))
    {
      var err := svc.RegisterFile(path);
      if node != null {
        create_list.Delete(node, k);
      }
    }

    /** The test whether a directory was created just before, which always fails. */
    method SawNewDirectory() returns (b: bool)
      ensures !b
    {
      NeverDirectoryCreated(prev_mask);
      b := Has(prev_mask & IN_ISDIR, IN_CREATE);
    }

    /** A file was closed after writing: new if it is in the create list, else
        replaced. ms_refresh_item updates what is known of an item, not which items there are. */
    method HandleCloseWrite(wd: int, name: CString, path: CString, refreshed: bool)
      requires Valid()
      modifies `prev_mask, `prev_wd, create_list, create_list.Repr, svc
      ensures Valid() && create_list.Repr <= old(create_list.Repr)
      ensures Now() == FileEffect(svc.env, old(Now()), Created(wd, name), CloseWrite, path, refreshed)
    {
      ghost var k := LastIndex(create_list.Contents(), Created(wd, name));
      var node := create_list.Find(wd, name);
      var inNewDirectory := SawNewDirectory();
      if node != null || inNewDirectory {
        RegisterNew(node, path, k);
        Forget();
      } else if refreshed {
        Forget();
      }
    }

    method Forget()
      requires Valid()
      modifies `prev_mask, `prev_wd
      ensures Valid() && Now() == old(Now()).(prev := Forgotten(old(Now()).prev))
    {
      prev_mask, prev_wd := 0, 0;
    }

    /** The loop: before each event power_off is polled. It handles the events in
        order and ends for one of three reasons, which tells how many they were. */
    method Loop(notices: seq<Notice>, polls: Script) returns (count: nat, ending: Ending)
      requires Valid() && RunEnds(svc.env, Now(), notices[..EndOf(notices, polls, 0).0])
      modifies this, watch_list, watch_list.Repr, create_list, create_list.Repr, svc
      ensures Valid() && (count, ending) == EndOf(notices, polls, 0)
      ensures Now() == ViewAfter(svc.env, old(Now()), notices, count)
    {
      ghost var start := Now();
      RunEndsPrefix(svc.env, start, notices[..EndOf(notices, polls, 0).0], 0);
      count := 0;
      while count < |notices|
        invariant Valid() && 0 <= count <= |notices|
        invariant fresh(create_list.Repr - old(create_list.Repr)) && fresh(watch_list.Repr - old(watch_list.Repr))
        invariant RunEnds(svc.env, start, notices[..count]) && Now() == ViewAfter(svc.env, start, notices, count)
        invariant EndOf(notices, polls, 0) == EndOf(notices, polls, count)
      {
        var power_off, later := SeesPowerOff(polls, count);
        if power_off {
          return count, PowerOffSeen;
        }
        ViewAfterNext(svc.env, start, notices, count, EndOf(notices, polls, 0).0);
        var goOn := HandleEvent(notices[count]);
        count := count + 1;
        if !goOn {
          return count, PowerOffEvent;
        }
      }
      ending := NoMoreEvents;
    }

    /** The end of the thread: three removals from the watch list, which must not be empty. */
    method Shutdown()
      requires Valid() && watch_list.watches != []
      modifies watch_list, watch_list.Repr
      ensures Valid()
      ensures watch_list.watches ==
              WithoutContaining(WithoutContaining(WithoutFirst(old(watch_list.watches), MS_DB_UPDATE_NOTI_PATH),
                                                  MS_ROOT_PATH_INTERNAL), MS_ROOT_PATH_EXTERNAL)
    {
      watch_list.RemoveWatch(MS_DB_UPDATE_NOTI_PATH);
      watch_list.RemoveWatchRecursive(MS_ROOT_PATH_INTERNAL);
      watch_list.RemoveWatchRecursive(MS_ROOT_PATH_EXTERNAL);
    }
  }
}
