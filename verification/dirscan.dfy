/** _ms_dir_scan and the database part of the thread loop: which files a scan
    finds, and what it does to the plugins for each of them. */
module DirScan {
  import opened Base
  import opened FileTree
  import opened Polls
  import opened ScanPolls
  import opened ScanQueue
  import opened Traversal
  import opened MediaDb
  import opened Scheduler

  predicate IsFile(dir: CString, d: Dirent) {
    !Hidden(d.name) && d.dtype.RegBit() && StrAppend(dir, d.name).Ok?
  }

  /** Paths of the files among the first `count` entries of a directory. */
  function FilesAmong(dir: CString, listing: seq<Dirent>, count: nat): seq<CString>
    requires count <= |listing|
  {
    if count == 0 then []
    else
      var d := listing[count - 1];
      FilesAmong(dir, listing, count - 1) + if IsFile(dir, d) then [StrAppend(dir, d.name).value] else []
  }

  function FilesOf(fs: Fs, dir: CString): seq<CString> {
    if dir in fs then FilesAmong(dir, fs[dir], |fs[dir]|) else []
  }

  /** All files of the listed directories, directory by directory. */
  function FilesIn(fs: Fs, dirs: seq<CString>): seq<CString> {
    if dirs == [] then []
    else FilesIn(fs, dirs[..|dirs| - 1]) + FilesOf(fs, dirs[|dirs| - 1])
  }

  /** The files met in a directory when `m` polls are answered no. */
  function FilesReadWithin(dir: CString, listing: seq<Dirent>, storage: Storage, m: nat): seq<CString> {
    FilesAmong(dir, listing, EntriesWithin(listing, storage, m, |listing|))
  }

  /** The same with the polls before opening it. */
  function FilesOfWithin(fs: Fs, storage: Storage, dir: CString, m: nat): seq<CString> {
    if dir in fs && OpenPolls(storage) <= m then FilesReadWithin(dir, fs[dir], storage, m - OpenPolls(storage)) else []
  }

  /** And for the listed directories, one after the other. */
  function FilesWithin(fs: Fs, storage: Storage, dirs: seq<CString>, m: nat): seq<CString> {
    if dirs == [] then []
    else
      var d := dirs[0];
      if m < VisitPolls(fs, storage, d) then FilesOfWithin(fs, storage, d, m)
      else FilesOf(fs, d) + FilesWithin(fs, storage, dirs[1..], m - VisitPolls(fs, storage, d))
  }

  lemma FilesOfWithinPrefix(fs: Fs, storage: Storage, dir: CString, m: nat)
    ensures FilesOfWithin(fs, storage, dir, m) <= FilesOf(fs, dir)
    ensures m >= VisitPolls(fs, storage, dir) ==> FilesOfWithin(fs, storage, dir, m) == FilesOf(fs, dir)
  {
    if dir in fs && OpenPolls(storage) <= m {
      FilesAmongPrefix(dir, fs[dir], EntriesWithin(fs[dir], storage, m - OpenPolls(storage), |fs[dir]|), |fs[dir]|);
    }
  }

  lemma FilesInSnoc(fs: Fs, dirs: seq<CString>, last: CString)
    ensures FilesIn(fs, dirs + [last]) == FilesIn(fs, dirs) + FilesOf(fs, last)
  {
    assert (dirs + [last])[..|dirs|] == dirs;
  }

  lemma {:induction false} FilesInCons(fs: Fs, dir: CString, rest: seq<CString>)
    ensures FilesIn(fs, [dir] + rest) == FilesOf(fs, dir) + FilesIn(fs, rest)
    decreases |rest|
  {
    if rest == [] {
      FilesInSnoc(fs, [], dir);
      assert [dir] + rest == [] + [dir];
    } else {
      var init, last := rest[..|rest| - 1], rest[|rest| - 1];
      assert rest == init + [last] && [dir] + rest == ([dir] + init) + [last];
      FilesInCons(fs, dir, init);
      FilesInSnoc(fs, [dir] + init, last);
      FilesInSnoc(fs, init, last);
      ConcatAssoc(FilesOf(fs, dir), FilesIn(fs, init), FilesOf(fs, last));
    }
  }

  /** That is a first part of all files. */
  lemma {:induction false} FilesWithinPrefix(fs: Fs, storage: Storage, dirs: seq<CString>, m: nat)
    ensures FilesWithin(fs, storage, dirs, m) <= FilesIn(fs, dirs)
  {
    if dirs != [] {
      var d, rest := dirs[0], dirs[1..];
      assert dirs == [d] + rest;
      FilesInCons(fs, d, rest);
      if m < VisitPolls(fs, storage, d) {
        FilesOfWithinPrefix(fs, storage, d, m);
        PrefixExtended(FilesWithin(fs, storage, dirs, m), FilesOf(fs, d), FilesIn(fs, rest));
      } else {
        var left := m - VisitPolls(fs, storage, d);
        FilesWithinPrefix(fs, storage, rest, left);
        PrefixConcat(FilesOf(fs, d), FilesWithin(fs, storage, rest, left), FilesIn(fs, rest));
      }
    }
  }

  /** And all of them with enough noes. */
  lemma {:induction false} FilesWithinAll(fs: Fs, storage: Storage, dirs: seq<CString>, m: nat)
    requires m >= TotalPolls(fs, storage, dirs)
    ensures FilesWithin(fs, storage, dirs, m) == FilesIn(fs, dirs)
  {
    if dirs != [] {
      var d, rest := dirs[0], dirs[1..];
      var left := m - VisitPolls(fs, storage, d);
      assert dirs == [d] + rest;
      FilesInCons(fs, d, rest);
      FilesWithinAll(fs, storage, rest, left);
      assert FilesWithin(fs, storage, dirs, m) == FilesOf(fs, d) + FilesWithin(fs, storage, rest, left);
    }
  }

  /** The database after a PART or an ALL scan has handled the files in turn. */
  function Handled(env: Env, db: Db, scanType: ScanType, files: seq<CString>): (r: Db)
    ensures |r| == |db|
  {
    if files == [] then db
    else
      var before := Handled(env, db, scanType, files[..|files| - 1]);
      if scanType.Part? then ValidateItem(env, before, files[|files| - 1])
      else InsertItem(env, InsertBatch, before, files[|files| - 1])
  }

  /** What serving one request does to the database; `seen` are the files
      handled before the scan ended or was stopped. */
  function Effect(env: Env, db: Db, r: Request, seen: seq<CString>, poweredOff: bool): (after: Db)
    ensures |after| == |db|
  {
    match r.scanType
    case Invalid => InvalidateAll(env, db, r.storage)
    case Part =>
      if poweredOff then Handled(env, db, Part, seen)
      else MediaDb.DeleteInvalid(env, Handled(env, db, Part, seen), r.storage)
    case All => Handled(env, MediaDb.DeleteAll(env, db, r.storage), All, seen)
    case PowerOff => db
  }

  lemma {:induction false} FilesAmongPrefix(dir: CString, listing: seq<Dirent>, j: nat, count: nat)
    requires j <= count <= |listing|
    ensures FilesAmong(dir, listing, j) <= FilesAmong(dir, listing, count)
  {
    if j < count {
      FilesAmongPrefix(dir, listing, j, count - 1);
    }
  }

  lemma {:induction false} FilesInPrefix(fs: Fs, dirs: seq<CString>, all: seq<CString>)
    requires dirs <= all
    ensures FilesIn(fs, dirs) <= FilesIn(fs, all)
    decreases |all|
  {
    if dirs != all {
      var init := all[..|all| - 1];
      assert dirs <= init;
      FilesInPrefix(fs, dirs, init);
    }
  }

  lemma HandledSnoc(env: Env, db: Db, scanType: ScanType, files: seq<CString>, f: CString)
    ensures Handled(env, db, scanType, files + [f])
         == if scanType.Part? then ValidateItem(env, Handled(env, db, scanType, files), f)
            else InsertItem(env, InsertBatch, Handled(env, db, scanType, files), f)
  {
    assert (files + [f])[..|files|] == files;
  }

  /** One entry that is not hidden: if it is a file, it is validated or inserted. */
  method HandleEntry(
      svc: MediaService, dir: CString, entry: Dirent, scanType: ScanType,
      ghost db: Db, ghost seen0: seq<CString>, ghost found0: seq<CString>)
    returns (ghost found: seq<CString>)
    requires scanType.IsScan() && !Hidden(entry.name) && svc.plugins == Handled(svc.env, db, scanType, seen0 + found0)
    modifies svc
    ensures found == found0 + if IsFile(dir, entry) then [StrAppend(dir, entry.name).value] else []
    ensures svc.plugins == Handled(svc.env, db, scanType, seen0 + found)
  {
    found := found0;
    if entry.dtype.RegBit() {
      var path := StrAppend(dir, entry.name);
      if path.Ok? {
        HandledSnoc(svc.env, db, scanType, seen0 + found, path.value);
        assert seen0 + (found + [path.value]) == (seen0 + found) + [path.value];
        var err;
        if scanType.Part? {
          err := svc.Validate(path.value);
        } else {
          err := svc.InsertInBatch(path.value);
        }
        found := found + [path.value];
      }
    }
  }

  /** One round of the loop over the entries: poll, and handle the entry. */
  method ScanEntry(
      svc: MediaService, dir: CString, entry: Dirent, scanType: ScanType, storage: Storage, polls: Script, now: nat,
      ghost db: Db, ghost seen0: seq<CString>, ghost found0: seq<CString>)
    returns (stopped: bool, later: nat, ghost found: seq<CString>)
    requires scanType.IsScan() && svc.plugins == Handled(svc.env, db, scanType, seen0 + found0)
    modifies svc
    ensures EndsBy(polls, now, later, now + EntryPolls(entry, storage), stopped)
    ensures found == found0 + if !stopped && IsFile(dir, entry) then [StrAppend(dir, entry.name).value] else []
    ensures svc.plugins == Handled(svc.env, db, scanType, seen0 + found)
  {
    found := found0;
    stopped, later := SeesPowerOff(polls, now);
    if !stopped && !Hidden(entry.name) {
      stopped, later := SeesCardRemoved(polls, later, storage);
      GoOn(polls, now, now + 1, later, stopped);
      if !stopped {
        found := HandleEntry(svc, dir, entry, scanType, db, seen0, found);
      }
    }
  }

  /** After the first `j` entries, with the polls made for them. */
  ghost predicate FilesUpTo(
      job: Job, dir: CString, now: nat, j: nat, later: nat, found: seq<CString>)
    requires dir in job.fs && j <= |job.fs[dir]|
  {
    && EndsBy(job.polls, now, later, now + EntriesPolls(job.fs[dir], job.storage, j), false)
    && found == FilesAmong(dir, job.fs[dir], j)
  }

  /** A pass over the open directory that ends with the poll before `finish`, if it is not stopped. */
  ghost predicate FilesRead(
      job: Job, dir: CString, now: nat, finish: nat, stopped: bool, later: nat, found: seq<CString>)
    requires dir in job.fs
  {
    && EndsBy(job.polls, now, later, finish, stopped) && now <= finish
    && found == FilesReadWithin(dir, job.fs[dir], job.storage, Noes(job.polls, now, finish))
  }

  /** Stopped at entry `j`, or at the last poll behind all of them, or not at all. */
  lemma EntriesScanned(
      job: Job, dir: CString, now: nat, j: nat, mid: nat, later: nat, found: seq<CString>, stopped: bool)
    requires dir in job.fs && j <= |job.fs[dir]| && FilesUpTo(job, dir, now, j, mid, found)
    requires if j == |job.fs[dir]| then EndsBy(job.polls, mid, later, mid + 1, stopped)
             else stopped && EndsBy(job.polls, mid, later, mid + EntryPolls(job.fs[dir][j], job.storage), true)
    ensures FilesRead(job, dir, now, now + AllEntries(job, dir) + 1, stopped, later, found)
  {
    var listing, storage := job.fs[dir], job.storage;
    var finish := now + EntriesPolls(listing, storage, |listing|) + 1;
    if j < |listing| {
      EntriesPollsMonotone(listing, storage, j + 1, |listing|);
    }
    GoOn(job.polls, now, mid, later, stopped);
    PassPolls(job.polls, now, later, finish, stopped);
    EntriesWithinIs(listing, storage, Noes(job.polls, now, finish), j, |listing|);
  }

  /** One listed directory: handle its files until the end or until a poll says stop. */
  method ScanDirectory(
      job: Job, svc: MediaService, dir: CString, scanType: ScanType, now: nat, ghost db: Db, ghost seen0: seq<CString>)
    returns (stopped: bool, later: nat, ghost found: seq<CString>)
    requires scanType.IsScan() && dir in job.fs && svc.plugins == Handled(svc.env, db, scanType, seen0)
    modifies svc
    ensures FilesRead(job, dir, now, now + AllEntries(job, dir) + 1, stopped, later, found)
    ensures svc.plugins == Handled(svc.env, db, scanType, seen0 + found)
  {
    var listing := job.fs[dir];
    stopped, later, found := false, now, [];
    assert seen0 + [] == seen0;
    var j := 0;
    while j < |listing|
      invariant 0 <= j <= |listing| && FilesUpTo(job, dir, now, j, later, found)
      invariant svc.plugins == Handled(svc.env, db, scanType, seen0 + found)
    {
      ghost var mid := later;
      stopped, later, found :=
        ScanEntry(svc, dir, listing[j], scanType, job.storage, job.polls, later, db, seen0, found);
      if stopped {
        EntriesScanned(job, dir, now, j, mid, later, found, true);
        return;
      }
      GoOn(job.polls, now, mid, later, false);
      j := j + 1;
    }
    // readdir_r delivers no entry any more, but power_off is polled once again
    ghost var mid := later;
    stopped, later := SeesPowerOff(job.polls, later);
    EntriesScanned(job, dir, now, j, mid, later, found, stopped);
  }

  /** What the visit of one listed directory meets, and the polls it makes. */
  ghost predicate CellScanned(job: Job, dir: CString, now: nat, stopped: bool, later: nat, found: seq<CString>) {
    var finish := now + VisitPolls(job.fs, job.storage, dir);
    && EndsBy(job.polls, now, later, finish, stopped)
    && found == FilesOfWithin(job.fs, job.storage, dir, Noes(job.polls, now, finish))
  }

  lemma CellNotOpened(job: Job, dir: CString, now: nat, stopped: bool, later: nat)
    requires EndsBy(job.polls, now, later, now + OpenPolls(job.storage), stopped) && (stopped || dir !in job.fs)
    ensures CellScanned(job, dir, now, stopped, later, [])
  {
    PassPolls(job.polls, now, later, now + OpenPolls(job.storage), stopped);
    PassPolls(job.polls, now, later, now + VisitPolls(job.fs, job.storage, dir), stopped);
  }

  lemma CellOpened(
      job: Job, dir: CString, now: nat, mid: nat, stopped: bool, later: nat, found: seq<CString>)
    requires dir in job.fs && EndsBy(job.polls, now, mid, now + OpenPolls(job.storage), false)
    requires FilesRead(job, dir, mid, mid + AllEntries(job, dir) + 1, stopped, later, found)
    ensures CellScanned(job, dir, now, stopped, later, found)
  {
    GoOn(job.polls, now, mid, later, stopped);
    NoesGoOn(job.polls, now, mid, now + VisitPolls(job.fs, job.storage, dir));
  }

  /** One cell of the scan list: poll, and scan the directory if it opens. */
  method ScanCell(
      job: Job, svc: MediaService, dir: CString, scanType: ScanType, now: nat, ghost db: Db, ghost seen0: seq<CString>)
    returns (stopped: bool, later: nat, ghost found: seq<CString>)
    requires scanType.IsScan() && svc.plugins == Handled(svc.env, db, scanType, seen0)
    modifies svc
    ensures CellScanned(job, dir, now, stopped, later, found)
    ensures svc.plugins == Handled(svc.env, db, scanType, seen0 + found)
  {
    found := [];
    assert seen0 + [] == seen0;
    var stop := SeesStop(job.polls, now, job.storage);
    stopped, later := stop.0, stop.1;
    if stopped || dir !in job.fs {
      CellNotOpened(job, dir, now, stopped, later);
    } else {
      ghost var mid := later;
      stopped, later, found := ScanDirectory(job, svc, dir, scanType, later, db, seen0);
      CellOpened(job, dir, now, mid, stopped, later, found);
    }
  }

  /** The directories that are still to be scanned. */
  ghost function Rest(names: seq<CString>, i: nat): seq<CString>
    requires i <= |names|
  {
    names[i..]
  }

  /** What they have to contribute, within the noes that are left, is what is missing. */
  ghost predicate OnCourse(
      job: Job, names: seq<CString>, i: nat, seen: seq<CString>, now: nat, all: seq<CString>, finish: nat)
    requires i <= |names|
  {
    && now + TotalPolls(job.fs, job.storage, Rest(names, i)) == finish
    && seen + FilesWithin(job.fs, job.storage, Rest(names, i), Noes(job.polls, now, finish)) == all
  }

  /** One more cell, scanned completely or up to a stop. */
  lemma NextDirectory(
      job: Job, names: seq<CString>, i: nat, seen: seq<CString>, now: nat, all: seq<CString>, finish: nat,
      stopped: bool, later: nat, found: seq<CString>)
    requires i < |names| && OnCourse(job, names, i, seen, now, all, finish)
    requires CellScanned(job, names[i], now, stopped, later, found)
    ensures if stopped then EndsBy(job.polls, now, later, finish, true) && seen + found == all
            else OnCourse(job, names, i + 1, seen + found, later, all, finish)
  {
    var d, rest := names[i], Rest(names, i + 1);
    assert Rest(names, i)[0] == d && Rest(names, i)[1..] == rest;
    var cell := now + VisitPolls(job.fs, job.storage, d);
    PassPolls(job.polls, now, later, cell, stopped);
    if stopped {
      PassPolls(job.polls, now, later, finish, true);
    } else {
      FilesOfWithinPrefix(job.fs, job.storage, d, Noes(job.polls, now, cell));
      NoesGoOn(job.polls, now, later, finish);
      var others := FilesWithin(job.fs, job.storage, rest, Noes(job.polls, later, finish));
      assert seen + (found + others) == (seen + found) + others;
    }
  }

  lemma {:induction false} TotalPollsSplit(fs: Fs, storage: Storage, a: seq<CString>, b: seq<CString>)
    ensures TotalPolls(fs, storage, a + b) == TotalPolls(fs, storage, a) + TotalPolls(fs, storage, b)
  {
    if a == [] {
      assert a + b == b;
    } else {
      assert (a + b)[1..] == a[1..] + b;
      TotalPollsSplit(fs, storage, a[1..], b);
    }
  }

  lemma PollsPrefix(fs: Fs, storage: Storage, dirs: seq<CString>, all: seq<CString>)
    requires dirs <= all
    ensures TotalPolls(fs, storage, dirs) <= TotalPolls(fs, storage, all)
  {
    assert all == dirs + all[|dirs|..];
    TotalPollsSplit(fs, storage, dirs, all[|dirs|..]);
  }

  /** The loop over the scan list. */
  method ScanListed(
      job: Job, scan: ScanList, svc: MediaService, scanType: ScanType, now: nat)
    returns (stopped: bool, later: nat, ghost seen: seq<CString>)
    requires scan.Valid() && scanType.IsScan()
    modifies svc
    ensures scan.Valid() && scan.Names() == old(scan.Names())
    ensures var finish := now + TotalPolls(job.fs, job.storage, old(scan.Names()));
            && EndsBy(job.polls, now, later, finish, stopped)
            && seen == FilesWithin(job.fs, job.storage, old(scan.Names()), Noes(job.polls, now, finish))
    ensures svc.plugins == Handled(svc.env, old(svc.plugins), scanType, seen)
  {
    ghost var db, names := svc.plugins, scan.Names();
    ghost var finish := now + TotalPolls(job.fs, job.storage, names);
    ghost var all := FilesWithin(job.fs, job.storage, names, Noes(job.polls, now, finish));
    stopped, later, seen := false, now, [];
    assert Rest(names, 0) == names && [] + all == all;
    var node := scan.first_scan_node;
    ghost var i := 0;
    while node != null
      invariant scan.Valid() && scan.Names() == names && 0 <= i <= |scan.cells|
      invariant node == if i < |scan.cells| then scan.cells[i] else null
      invariant StopsAtFirst(job.polls, now, later, false) && OnCourse(job, names, i, seen, later, all, finish)
      invariant svc.plugins == Handled(svc.env, db, scanType, seen)
      decreases |scan.cells| - i
    {
      ghost var mid, found := later, [];
      stopped, later, found := ScanCell(job, svc, node.name, scanType, later, db, seen);
      NextDirectory(job, names, i, seen, mid, all, finish, stopped, later, found);
      GoOn(job.polls, now, mid, later, stopped);
      seen := seen + found;
      if stopped {
        return;
      }
      node := NextCell(scan, node, i);
      i := i + 1;
    }
    assert Rest(names, i) == [];
  }

  method NextCell(scan: ScanList, node: ScanData, ghost i: nat) returns (next: ScanData?)
    requires scan.Valid() && i < |scan.cells| && node == scan.cells[i]
    ensures next == if i + 1 < |scan.cells| then scan.cells[i + 1] else null
  {
    assert node.next == ScanQueue.After(scan.cells, i);
    next := node.next;
  }

  // ----- Both passes -----

  /** The list after the first pass, and the number of the poll after it. */
  ghost function Listed(job: Job, root: CString, now: nat): seq<CString>
    requires |root| <= MS_FILE_PATH_LEN_MAX
  {
    AddAll(AddUnique([], root), WalkFinds(job, root, now))
  }

  ghost function WalkEnd(job: Job, root: CString, now: nat): nat
    requires |root| <= MS_FILE_PATH_LEN_MAX
  {
    PassEnd(job.polls, now, WalkFinish(job, root, now))
  }

  /** A second pass over `dirs`: what it sees, and the number of the poll after it. */
  ghost function PassSees(job: Job, dirs: seq<CString>, mid: nat): seq<CString> {
    FilesWithin(job.fs, job.storage, dirs, Noes(job.polls, mid, mid + TotalPolls(job.fs, job.storage, dirs)))
  }

  ghost function PassOver(job: Job, dirs: seq<CString>, mid: nat): nat {
    PassEnd(job.polls, mid, mid + TotalPolls(job.fs, job.storage, dirs))
  }

  /** The second pass of a scan, for which a stop in the first one is no end. */
  ghost function ScanSees(job: Job, root: CString, now: nat): seq<CString>
    requires |root| <= MS_FILE_PATH_LEN_MAX
  {
    PassSees(job, Listed(job, root, now), WalkEnd(job, root, now))
  }

  ghost function ScanEnd(job: Job, root: CString, now: nat): nat
    requires |root| <= MS_FILE_PATH_LEN_MAX
  {
    PassOver(job, Listed(job, root, now), WalkEnd(job, root, now))
  }

  /** The polls of a scan that is not stopped: those of the traversal and those of the second pass. */
  ghost function AllPolls(fs: Fs, storage: Storage, root: CString): nat
    requires |root| <= MS_FILE_PATH_LEN_MAX
  {
    TotalPolls(fs, storage, Preorder(fs, root)) + TotalPolls(fs, storage, Expected(fs, [], root))
  }

  lemma FirstPass(job: Job, root: CString, now: nat) returns (cut: bool)
    requires |root| <= MS_FILE_PATH_LEN_MAX
    ensures EndsBy(job.polls, now, WalkEnd(job, root, now), WalkFinish(job, root, now), cut)
    ensures Listed(job, root, now) <= Expected(job.fs, [], root)
    ensures !cut ==> Listed(job, root, now) == Expected(job.fs, [], root)
  {
    cut := PassStops(job.polls, now, WalkFinish(job, root, now));
    WalkFindsPrefix(job, root, now, WalkEnd(job, root, now), cut);
    StoppedIsPrefix(AddUnique([], root), Found(job.fs, Preorder(job.fs, root)), WalkFinds(job, root, now));
  }

  lemma PrefixOfPrefix(a: seq<CString>, b: seq<CString>, c: seq<CString>)
    requires a <= b <= c
    ensures a <= c
  {
    assert forall i :: 0 <= i < |a| ==> a[i] == b[i] == c[i];
  }

  lemma SecondPass(job: Job, dirs: seq<CString>, all: seq<CString>, mid: nat) returns (stopped: bool)
    requires dirs <= all
    ensures EndsBy(job.polls, mid, PassOver(job, dirs, mid), mid + TotalPolls(job.fs, job.storage, dirs), stopped)
    ensures TotalPolls(job.fs, job.storage, dirs) <= TotalPolls(job.fs, job.storage, all)
    ensures PassSees(job, dirs, mid) <= FilesIn(job.fs, all)
    ensures !stopped ==> PassSees(job, dirs, mid) == FilesIn(job.fs, dirs)
  {
    var finish := mid + TotalPolls(job.fs, job.storage, dirs);
    stopped := PassStops(job.polls, mid, finish);
    PassPolls(job.polls, mid, PassEnd(job.polls, mid, finish), finish, stopped);
    FilesWithinPrefix(job.fs, job.storage, dirs, Noes(job.polls, mid, finish));
    if !stopped {
      FilesWithinAll(job.fs, job.storage, dirs, Noes(job.polls, mid, finish));
    }
    FilesInPrefix(job.fs, dirs, all);
    PrefixOfPrefix(PassSees(job, dirs, mid), FilesIn(job.fs, dirs), FilesIn(job.fs, all));
    PollsPrefix(job.fs, job.storage, dirs, all);
  }

  lemma BothQuiet(polls: Script, now: nat, mid: nat, later: nat, walk: nat, finish: nat, cut: bool, stopped: bool)
    requires EndsBy(polls, now, mid, walk, cut) && EndsBy(polls, mid, later, finish, stopped)
    ensures Hit(polls, now, later) <==> cut || stopped
  {
    StoppedIffHit(polls, now, mid, walk, cut);
    StoppedIffHit(polls, mid, later, finish, stopped);
  }

  /** If no poll is answered yes a scan sees every file; in any case it sees a
      first part of them and makes no more than its polls. */
  lemma ScanSeesPrefix(job: Job, root: CString, now: nat)
    requires |root| <= MS_FILE_PATH_LEN_MAX
    ensures now <= ScanEnd(job, root, now) <= now + AllPolls(job.fs, job.storage, root)
    ensures ScanSees(job, root, now) <= FilesIn(job.fs, Expected(job.fs, [], root))
    ensures !Hit(job.polls, now, ScanEnd(job, root, now)) ==>
              && ScanSees(job, root, now) == FilesIn(job.fs, Expected(job.fs, [], root))
              && ScanEnd(job, root, now) == now + AllPolls(job.fs, job.storage, root)
  {
    var cut := FirstPass(job, root, now);
    PassesPrefix(job, now, WalkEnd(job, root, now), WalkFinish(job, root, now), cut,
                 Listed(job, root, now), Expected(job.fs, [], root));
  }

  lemma PassesPrefix(
      job: Job, now: nat, mid: nat, walk: nat, cut: bool, dirs: seq<CString>, all: seq<CString>)
    requires EndsBy(job.polls, now, mid, walk, cut) && dirs <= all && (!cut ==> dirs == all)
    ensures now <= PassOver(job, dirs, mid) <= walk + TotalPolls(job.fs, job.storage, all)
    ensures PassSees(job, dirs, mid) <= FilesIn(job.fs, all)
    ensures !Hit(job.polls, now, PassOver(job, dirs, mid)) ==>
              && PassSees(job, dirs, mid) == FilesIn(job.fs, all)
              && PassOver(job, dirs, mid) == walk + TotalPolls(job.fs, job.storage, all)
  {
    var stopped := SecondPass(job, dirs, all, mid);
    BothQuiet(job.polls, now, mid, PassOver(job, dirs, mid), walk, mid + TotalPolls(job.fs, job.storage, dirs),
              cut, stopped);
  }

  lemma QuietPass(job: Job, dirs: seq<CString>, mid: nat)
    requires !Hit(job.polls, mid, mid + TotalPolls(job.fs, job.storage, dirs))
    ensures PassSees(job, dirs, mid) == FilesIn(job.fs, dirs)
    ensures PassOver(job, dirs, mid) == mid + TotalPolls(job.fs, job.storage, dirs)
  {
    var finish := mid + TotalPolls(job.fs, job.storage, dirs);
    NoYesIff(job.polls, mid, finish);
    NoesGoOn(job.polls, mid, finish, finish);
    FilesWithinAll(job.fs, job.storage, dirs, finish - mid);
  }

  /** However early the first pass is stopped, the second one goes over all that
      it listed, the root among them, and sees every file there if no poll of its
      own is answered yes. */
  lemma SecondPassGoesOn(job: Job, root: CString, now: nat, dirs: seq<CString>, mid: nat)
    requires |root| <= MS_FILE_PATH_LEN_MAX && dirs == Listed(job, root, now) && mid == WalkEnd(job, root, now)
    ensures root in dirs
    ensures !Hit(job.polls, mid, mid + TotalPolls(job.fs, job.storage, dirs)) ==>
              && ScanSees(job, root, now) == FilesIn(job.fs, dirs)
              && ScanEnd(job, root, now) == mid + TotalPolls(job.fs, job.storage, dirs)
  {
    RootIsListed(job, root, now);
    if !Hit(job.polls, mid, mid + TotalPolls(job.fs, job.storage, dirs)) {
      QuietPass(job, dirs, mid);
    }
  }

  lemma RootIsListed(job: Job, root: CString, now: nat)
    requires |root| <= MS_FILE_PATH_LEN_MAX
    ensures root in Listed(job, root, now)
  {
    AddAllMembers(AddUnique([], root), WalkFinds(job, root, now));
  }

  /** Both passes of a scan. A stop in the first one does not keep the second one from being made. */
  method ScanTree(job: Job, scan: ScanList, svc: MediaService, root: CString, scanType: ScanType, now: nat)
    returns (stopped: bool, later: nat, ghost seen: seq<CString>)
    requires scan.Valid() && scan.Names() == [] && |root| <= MS_FILE_PATH_LEN_MAX && scanType.IsScan()
    modifies scan, scan.Repr, svc
    ensures scan.Valid() && fresh(scan.Repr - old(scan.Repr))
    ensures now <= later && (stopped <==> Hit(job.polls, now, later))
    ensures svc.plugins == Handled(svc.env, old(svc.plugins), scanType, seen)
    ensures seen == ScanSees(job, root, now) && later == ScanEnd(job, root, now)
  {
    var cut, mid := ListTree(job, scan, root, now);
    stopped, later, seen := ScanListed(job, scan, svc, scanType, mid);
    ScanIs(job, root, now, cut, mid, stopped, later, seen);
    stopped := stopped || cut;
  }

  /** The first pass. */
  method ListTree(job: Job, scan: ScanList, root: CString, now: nat) returns (cut: bool, mid: nat)
    requires scan.Valid() && scan.Names() == [] && |root| <= MS_FILE_PATH_LEN_MAX
    modifies scan, scan.Repr
    ensures scan.Valid() && fresh(scan.Repr - old(scan.Repr))
    ensures scan.Names() == Listed(job, root, now) && mid == WalkEnd(job, root, now)
    ensures EndsBy(job.polls, now, mid, WalkFinish(job, root, now), cut)
  {
    var freed;
    cut, mid, freed := DirCheck(job, scan, root, now);
    EndIsPassEnd(job.polls, now, mid, WalkFinish(job, root, now), cut);
  }

  /** What both passes say together. */
  lemma ScanIs(
      job: Job, root: CString, now: nat, cut: bool, mid: nat, stopped: bool, later: nat, seen: seq<CString>)
    requires |root| <= MS_FILE_PATH_LEN_MAX && mid == WalkEnd(job, root, now)
    requires EndsBy(job.polls, now, mid, WalkFinish(job, root, now), cut)
    requires var names := Listed(job, root, now);
             var finish := mid + TotalPolls(job.fs, job.storage, names);
             && EndsBy(job.polls, mid, later, finish, stopped)
             && seen == FilesWithin(job.fs, job.storage, names, Noes(job.polls, mid, finish))
    ensures now <= later && (stopped || cut <==> Hit(job.polls, now, later))
    ensures seen == ScanSees(job, root, now) && later == ScanEnd(job, root, now)
  {
    var names := Listed(job, root, now);
    PassIs(job, names, mid, stopped, later, seen);
    BothQuiet(job.polls, now, mid, later, WalkFinish(job, root, now),
              mid + TotalPolls(job.fs, job.storage, names), cut, stopped);
  }

  lemma PassIs(
      job: Job, names: seq<CString>, mid: nat, stopped: bool, later: nat, seen: seq<CString>)
    requires var finish := mid + TotalPolls(job.fs, job.storage, names);
             && EndsBy(job.polls, mid, later, finish, stopped)
             && seen == FilesWithin(job.fs, job.storage, names, Noes(job.polls, mid, finish))
    ensures seen == PassSees(job, names, mid) && later == PassOver(job, names, mid)
  {
    EndIsPassEnd(job.polls, mid, later, mid + TotalPolls(job.fs, job.storage, names), stopped);
  }

  /** _ms_dir_scan: collect the directories, then handle their files; or, for
      an INVALID request, mark every item of the storage. A scan is stopped
      exactly if one of its polls is answered yes. The list is empty before and after. */
  method ScanStorage(
      fs: Fs, scan: ScanList, svc: MediaService, root: CString, r: Request, polls: Script, now: nat)
    returns (stopped: bool, later: nat, ghost seen: seq<CString>)
    requires scan.Valid() && scan.Names() == [] && |root| <= MS_FILE_PATH_LEN_MAX && !r.scanType.PowerOff?
    modifies scan, scan.Repr, svc
    ensures scan.Valid() && scan.Names() == []
    ensures now <= later && (stopped <==> Hit(polls, now, later))
    ensures r.scanType.Invalid? ==>
              later == now && seen == [] && svc.plugins == InvalidateAll(svc.env, old(svc.plugins), r.storage)
    ensures r.scanType.IsScan() ==>
              && svc.plugins == Handled(svc.env, old(svc.plugins), r.scanType, seen)
              && seen == ScanSees(Job(fs, r.storage, polls), root, now)
              && later == ScanEnd(Job(fs, r.storage, polls), root, now)
  {
    stopped, later, seen := false, now, [];
    if r.scanType.Invalid? {
      var err := svc.InvalidateAllItems(r.storage);
    } else {
      stopped, later, seen := ScanTree(Job(fs, r.storage, polls), scan, svc, root, r.scanType, now);
    }
    scan.Reset();
  }

  /** The database part of the thread loop for one request. The last poll is
      the test of power_off behind the scan. */
  method ServeRequest(
      fs: Fs, scan: ScanList, svc: MediaService, root: CString, r: Request, polls: Script, now: nat)
    returns (stopped: bool, poweredOff: bool, later: nat, ghost seen: seq<CString>)
    requires scan.Valid() && scan.Names() == [] && |root| <= MS_FILE_PATH_LEN_MAX && !r.scanType.PowerOff?
    modifies scan, scan.Repr, svc
    ensures scan.Valid() && scan.Names() == []
    ensures now < later && (stopped <==> Hit(polls, now, later - 1)) && poweredOff == Yes(polls, later - 1)
    ensures r.scanType.Invalid? ==> later == now + 1 && seen == []
    ensures r.scanType.IsScan() ==>
              && seen == ScanSees(Job(fs, r.storage, polls), root, now)
              && later == ScanEnd(Job(fs, r.storage, polls), root, now) + 1
              && (!stopped ==> seen == FilesIn(fs, Expected(fs, [], root)))
    ensures svc.plugins == Effect(svc.env, old(svc.plugins), r, seen, poweredOff)
  {
    if r.scanType.All? {
      var res := svc.DeleteAllItems(r.storage);
    }
    stopped, later, seen := ScanStorage(fs, scan, svc, root, r, polls, now);
    ScanSeesPrefix(Job(fs, r.storage, polls), root, now);
    poweredOff, later := SeesPowerOff(polls, later);
    if poweredOff {
      return;
    }
    if r.scanType.Part? {
      var res := svc.DeleteInvalidItems(r.storage);
    }
  }
}
