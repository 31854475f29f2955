/** Files and directories together: the database that is kept in step with the
    files by their events, and when it stays in step with a watched directory
    that is renamed. */
module TreeSync {
  import opened Base
  import opened FileTree
  import opened MediaDb
  import opened WalkEnds
  import opened WatchList
  import opened CreateList
  import opened WalkResults
  import opened RecursiveWalk
  import opened Rename
  import opened RenamePairs
  import opened RenamedTree
  import opened InotifyEvents
  import opened FileSync
  import opened DirectoryEvents
  import Reachable

  /** The renamed tree is a plain one, apart from where it came from. */
  ghost predicate PlainTree(r: Renaming, fs: Fs) {
    && TreeFits(fs, r.org, r.chg) && |r.chg| <= MS_FILE_PATH_LEN_MAX - 2
    && Apart(r.org, r.chg) && !StorageOf(r.org).NoStorage? && !StorageOf(r.chg).NoStorage?
    && forall p, d :: Called(fs, r.chg, p) && d in fs[p] ==> '/' !in d.name
  }

  /** The place it goes to was free: no watch and no item is below it. */
  ghost predicate NewPlace(r: Renaming, v: View) {
    && (forall k :: 0 <= k < |v.watches| ==> !Under(r.chg, v.watches[k].name))
    && (forall i, p :: 0 <= i < |v.db| && Under(r.chg, p) ==> p !in v.db[i])
  }

  /** All its directories were watched where they were, and not by the first watch. */
  ghost predicate AllWatched(r: Renaming, fs: Fs, ws: seq<Watch>) {
    && ws != [] && !Followed(r, fs, ws[0].name)
    && forall q :: Called(fs, r.chg, q) ==> Named(ws, Rebased(r.chg, r.org, q))
  }

  /** A file in one of these directories whose new path is within the limit. */
  ghost predicate Relocated(r: Renaming, fs: Fs, ws: seq<Watch>, k: nat, c: Created) {
    && k < |ws| && ws[k].wd == c.wd && Followed(r, fs, ws[k].name)
    && Considered(c.wd, c.name) && '/' !in c.name
    && |Join(Rebased(r.org, r.chg, ws[k].name), c.name)| <= MS_FILE_PATH_LEN_MAX - 2
  }

  /** One plugin stays in step about a file: if the file is there, and accepted
      at its new path, then it was accepted at the old one, too, and the new tree lists it. */
  ghost predicate StaysAt(r: Renaming, fs: Fs, files: Files, c: Created, from: CString, i: nat) {
    var to := Rebased(r.org, r.chg, from);
    StatusOf(files, c).Present? && r.env.Accepts(i, to) ==> MetIn(fs, r.chg, to, Reg) && r.env.Accepts(i, from)
  }

  /** A file stays in step: if it is open it is not forgotten, and each plugin stays in step about it. */
  ghost predicate Stays(r: Renaming, fs: Fs, v: View, files: Files, c: Created, from: CString) {
    && (StatusOf(files, c).Open? ==> c in v.created)
    && forall i :: 0 <= i < |v.db| ==> StaysAt(r, fs, files, c, from, i)
  }

  ghost predicate AllStay(r: Renaming, fs: Fs, v: View, files: Files) {
    forall k: nat, c :: Relocated(r, fs, v.watches, k, c) ==> Stays(r, fs, v, files, c, Join(v.watches[k].name, c.name))
  }

  /** The view when the renamed tree has been followed. */
  ghost function FollowedView(r: Renaming, fs: Fs, v: View): View
    requires Progresses(fs, Spot(r.chg, Some(r.org)))
  {
    var after := Follow(r.env, r.kernel, Both(v.watches, v.db), RenameWalk(fs, r.org, r.chg));
    View(after.watches, v.created, after.db, Forgotten(v.prev))
  }

  ghost predicate Setting(r: Renaming, fs: Fs, v: View, files: Files) {
    && PlainTree(r, fs) && NewPlace(r, v) && AllWatched(r, fs, v.watches)
    && NoFailures(r.env) && GoodWatches(v.watches) && InSync(r.env, v, files)
  }

  /** The watches: the same number, each with its descriptor, and a name in the new tree if it had one in the old. */
  lemma WatchesAfter(r: Renaming, fs: Fs, v: View, files: Files)
    requires Setting(r, fs, v, files)
    ensures Progresses(fs, Spot(r.chg, Some(r.org)))
    ensures var ws := FollowedView(r, fs, v).watches;
            && GoodWatches(ws) && |ws| == |v.watches|
            && forall k :: 0 <= k < |ws| ==> ws[k] == Watch(NameAfter(r, fs, v.watches[k].name), v.watches[k].wd)
  {
    TreeFitsPairs(fs, r.org, r.chg);
    TreeWatchesFollow(r, fs, Both(v.watches, v.db));
    var before, ws := v.watches, FollowedView(r, fs, v).watches;
    assert NoneTaken(r, fs, before) by {
      forall k | 0 < k < |before| && Followed(r, fs, before[k].name)
        ensures !Named(before, Rebased(r.org, r.chg, before[k].name))
      {
        RebasedBack(r.org, r.chg, before[k].name);
      }
    }
    if |before| < |ws| {
      ExtraHasTwin(r, fs, before, ws);
      assert false;
    }
    assert DistinctWds(ws);
  }

  /** A watch added for a directory that was watched would be a second one of its name. */
  lemma ExtraHasTwin(r: Renaming, fs: Fs, before: seq<Watch>, ws: seq<Watch>)
    requires WatchesFollow(r, fs, before, ws) && AllWatched(r, fs, before) && Apart(r.org, r.chg)
    requires |r.chg| <= MS_FILE_PATH_LEN_MAX - 2 && |before| < |ws|
    ensures exists j :: 0 <= j < |before| && ws[j].name == ws[|before|].name
  {
    var q := ws[|before|].name;
    assert Called(fs, r.chg, q);
    CalledUnder(fs, r.chg, q);
    var j :| 0 <= j < |before| && before[j].name == Rebased(r.chg, r.org, q);
    RebasedBack(r.chg, r.org, q);
    assert Followed(r, fs, before[j].name);
    assert ws[j].name == q;
  }

  /** An entry of the new tree lies in one of its directories. */
  lemma EntryIn(r: Renaming, fs: Fs, p: CString, dir: CString, n: CString)
    requires PlainTree(r, fs) && MetIn(fs, r.chg, p, Reg) && p == Join(dir, n) && '/' !in n
    ensures Called(fs, r.chg, dir)
  {
    var d0, d :| Called(fs, r.chg, d0) && d in Reachable.Listing(fs, d0) && IsOther(d0, d, p, Reg);
    CalledUnder(fs, r.chg, d0);
    assert StrAppend(d0, d.name) == Ok(Join(d0, d.name));
    JoinInjective(d0, d.name, dir, n);
  }

  /** A file outside the renamed tree keeps its item, or goes on having none. */
  lemma OutsideKept(r: Renaming, fs: Fs, v: View, files: Files, k: nat, n: CString, i: nat)
    requires Setting(r, fs, v, files) && k < |v.watches| && !Followed(r, fs, v.watches[k].name) && '/' !in n
    requires i < |v.db|
    ensures Progresses(fs, Spot(r.chg, Some(r.org))) && |FollowedView(r, fs, v).db| == |v.db|
    ensures var p := Join(v.watches[k].name, n); p in FollowedView(r, fs, v).db[i] <==> p in v.db[i]
  {
    var name, p := v.watches[k].name, Join(v.watches[k].name, n);
    var to := Rebased(r.org, r.chg, p);
    TreeFitsPairs(fs, r.org, r.chg);
    TreeItemsFollow(r, fs, Both(v.watches, v.db), i, p);
    if MetIn(fs, r.chg, p, Reg) {
      EntryIn(r, fs, p, name, n);
      CalledUnder(fs, r.chg, name);
    }
    if Under(r.org, p) && MetIn(fs, r.chg, to, Reg) {
      InsideTree(r, fs, p, name, n);
    }
  }

  /** The directory of a file that moves is one of the tree. */
  lemma InsideTree(r: Renaming, fs: Fs, p: CString, name: CString, n: CString)
    requires PlainTree(r, fs) && Under(r.org, p) && p == Join(name, n) && '/' !in n
    requires MetIn(fs, r.chg, Rebased(r.org, r.chg, p), Reg)
    ensures Followed(r, fs, name)
  {
    var to := Rebased(r.org, r.chg, p);
    var dir, d :| Called(fs, r.chg, dir) && d in Reachable.Listing(fs, dir) && IsOther(dir, d, to, Reg);
    CalledUnder(fs, r.chg, dir);
    UnderIsPrefix(r.chg, dir);
    assert StrAppend(dir, d.name) == Ok(Join(dir, d.name));
    RebasedBack(r.org, r.chg, p);
    RebasedJoin(r.chg, r.org, dir, d.name);
    JoinInjective(Rebased(r.chg, r.org, dir), d.name, name, n);
    RebasedBack(r.chg, r.org, dir);
  }

  lemma StorageBelow(root: CString, p: CString)
    requires Under(root, p) && !StorageOf(root).NoStorage?
    ensures !StorageOf(p).NoStorage?
  {
    UnderIsPrefix(root, p);
  }

  /** A file that the new tree lists had a path within the limit before. */
  lemma OldPathFits(r: Renaming, fs: Fs, to: CString)
    requires PlainTree(r, fs) && MetIn(fs, r.chg, to, Reg)
    ensures |Rebased(r.chg, r.org, to)| <= MS_FILE_PATH_LEN_MAX - 2
  {
    var dir, d :| Called(fs, r.chg, dir) && d in Reachable.Listing(fs, dir) && IsOther(dir, d, to, Reg);
    CalledUnder(fs, r.chg, dir);
    UnderIsPrefix(r.chg, dir);
    assert StrAppend(dir, d.name) == Ok(Join(dir, d.name));
  }

  /** A file of the renamed tree: its item is at the new path just if the file
      is present, listed there, and accepted at both paths. */
  lemma InsideMoves(r: Renaming, fs: Fs, v: View, files: Files, k: nat, c: Created, i: nat)
    requires Setting(r, fs, v, files) && Relocated(r, fs, v.watches, k, c) && i < |v.db|
    ensures Progresses(fs, Spot(r.chg, Some(r.org))) && |FollowedView(r, fs, v).db| == |v.db|
    ensures var from := Join(v.watches[k].name, c.name);
            var to := Rebased(r.org, r.chg, from);
            to in FollowedView(r, fs, v).db[i] <==>
              && StatusOf(files, c).Present? && MetIn(fs, r.chg, to, Reg)
              && r.env.Accepts(i, from) && r.env.Accepts(i, to)
  {
    var name, from := v.watches[k].name, Join(v.watches[k].name, c.name);
    var to := Rebased(r.org, r.chg, from);
    UnderJoin(r.org, name, c.name);
    RebasedBack(r.org, r.chg, from);
    if MetIn(fs, r.chg, to, Reg) {
      OldPathFits(r, fs, to);
      assert Tracked(v.watches, c);
      TrackedPath(v.watches, c, k);
      assert InSyncAt(r.env, v, files, c, i);
    }
    StorageBelow(r.org, from);
    StorageBelow(r.chg, to);
    NotUnderBoth(r.chg, r.org, to);
    TreeFitsPairs(fs, r.org, r.chg);
    TreeItemsFollow(r, fs, Both(v.watches, v.db), i, to);
  }

  lemma UnderJoin(root: CString, p: CString, n: CString)
    requires Under(root, p)
    ensures Under(root, Join(p, n))
  {
    assert (p + "/") + (n + "/") == Join(p, n) + "/";
  }

  lemma FiledAfterRename(r: Renaming, fs: Fs, v: View)
    requires PlainTree(r, fs) && NoFailures(r.env) && WellFiled(v.db)
    ensures Progresses(fs, Spot(r.chg, Some(r.org))) && WellFiled(FollowedView(r, fs, v).db)
    ensures |FollowedView(r, fs, v).db| == |v.db|
  {
    TreeFitsPairs(fs, r.org, r.chg);
    BothProgress(fs, r.org, r.chg);
    var after := FollowedView(r, fs, v);
    forall i, p: CString | 0 <= i < |after.db| && p in after.db[i] ensures after.db[i][p].storage == StorageOf(p) {
      TreeItemsFollow(r, fs, Both(v.watches, v.db), i, p);
    }
  }

  lemma NewPath(r: Renaming, fs: Fs, v: View, files: Files, k: nat, c: Created)
    requires Setting(r, fs, v, files) && Relocated(r, fs, v.watches, k, c)
    ensures Progresses(fs, Spot(r.chg, Some(r.org)))
    ensures var after := FollowedView(r, fs, v).watches;
            && Tracked(after, c)
            && PathFor(after, c.wd, c.name) == Some(Rebased(r.org, r.chg, Join(v.watches[k].name, c.name)))
  {
    WatchesAfter(r, fs, v, files);
    var after := FollowedView(r, fs, v).watches;
    UnderIsPrefix(r.org, v.watches[k].name);
    RebasedJoin(r.org, r.chg, v.watches[k].name, c.name);
    assert after[k] == Watch(Rebased(r.org, r.chg, v.watches[k].name), c.wd);
    assert Tracked(after, c);
    TrackedPath(after, c, k);
  }

  lemma StaysAtIff(r: Renaming, fs: Fs, v: View, files: Files, k: nat, c: Created, i: nat)
    requires Setting(r, fs, v, files) && Relocated(r, fs, v.watches, k, c) && i < |v.db|
    ensures Progresses(fs, Spot(r.chg, Some(r.org))) && |FollowedView(r, fs, v).db| == |v.db|
    ensures var after := FollowedView(r, fs, v);
            && PathFor(after.watches, c.wd, c.name).Some?
            && (InSyncAt(r.env, after, files, c, i) <==>
                  StaysAt(r, fs, files, c, Join(v.watches[k].name, c.name), i))
  {
    NewPath(r, fs, v, files, k, c);
    InsideMoves(r, fs, v, files, k, c, i);
  }

  /** One such file is in step with the database after the rename if and only if it stays so. */
  lemma StaysIff(r: Renaming, fs: Fs, v: View, files: Files, k: nat, c: Created)
    requires Setting(r, fs, v, files) && Relocated(r, fs, v.watches, k, c)
    ensures Progresses(fs, Spot(r.chg, Some(r.org)))
    ensures var after := FollowedView(r, fs, v);
            && Tracked(after.watches, c) && PathFor(after.watches, c.wd, c.name).Some?
            && (Stays(r, fs, v, files, c, Join(v.watches[k].name, c.name)) <==>
                  && (StatusOf(files, c).Open? ==> c in after.created)
                  && forall i :: 0 <= i < |after.db| ==> InSyncAt(r.env, after, files, c, i))
  {
    NewPath(r, fs, v, files, k, c);
    FiledAfterRename(r, fs, v);
    var after, from := FollowedView(r, fs, v), Join(v.watches[k].name, c.name);
    forall i: nat | i < |after.db|
      ensures InSyncAt(r.env, after, files, c, i) <==> StaysAt(r, fs, files, c, from, i)
    {
      StaysAtIff(r, fs, v, files, k, c, i);
    }
  }

  /** A tracked file outside the renamed tree stays in step. */
  lemma OutsideStays(r: Renaming, fs: Fs, v: View, files: Files, k: nat, c: Created)
    requires Setting(r, fs, v, files) && k < |v.watches| && !Followed(r, fs, v.watches[k].name)
    requires v.watches[k].wd == c.wd && Tracked(v.watches, c)
    ensures Progresses(fs, Spot(r.chg, Some(r.org)))
    ensures var after := FollowedView(r, fs, v);
            && (StatusOf(files, c).Open? ==> c in after.created) && PathFor(after.watches, c.wd, c.name).Some?
            && forall i :: 0 <= i < |after.db| ==> InSyncAt(r.env, after, files, c, i)
  {
    WatchesAfter(r, fs, v, files);
    FiledAfterRename(r, fs, v);
    var after := FollowedView(r, fs, v);
    TrackedPath(v.watches, c, k);
    assert after.watches[k] == v.watches[k];
    assert Tracked(after.watches, c);
    TrackedPath(after.watches, c, k);
    forall i: nat | i < |after.db| ensures InSyncAt(r.env, after, files, c, i) {
      assert InSyncAt(r.env, v, files, c, i);
      OutsideKept(r, fs, v, files, k, c.name, i);
    }
  }

  /** The files are keyed by descriptor and name, and descriptors stay: after
      the rename the same files are in step with the database, under their new
      paths, if and only if every file of the tree stays so. */
  lemma SyncFollowsIff(r: Renaming, fs: Fs, v: View, files: Files)
    requires Setting(r, fs, v, files)
    ensures Progresses(fs, Spot(r.chg, Some(r.org)))
    ensures var after := FollowedView(r, fs, v);
            GoodWatches(after.watches) && (InSync(r.env, after, files) <==> AllStay(r, fs, v, files))
  {
    WatchesAfter(r, fs, v, files);
    FiledAfterRename(r, fs, v);
    var after := FollowedView(r, fs, v);
    if InSync(r.env, after, files) {
      forall k: nat, c | Relocated(r, fs, v.watches, k, c)
        ensures Stays(r, fs, v, files, c, Join(v.watches[k].name, c.name))
      {
        StaysIff(r, fs, v, files, k, c);
      }
    }
    if AllStay(r, fs, v, files) {
      forall c | Tracked(after.watches, c)
        ensures (StatusOf(files, c).Open? ==> c in after.created) && PathFor(after.watches, c.wd, c.name).Some?
        ensures forall i :: 0 <= i < |after.db| ==> InSyncAt(r.env, after, files, c, i)
      {
        var k :| 0 <= k < |after.watches| && after.watches[k].wd == c.wd
                 && |Join(after.watches[k].name, c.name)| <= MS_FILE_PATH_LEN_MAX - 2;
        if Followed(r, fs, v.watches[k].name) {
          assert Relocated(r, fs, v.watches, k, c);
          StaysIff(r, fs, v, files, k, c);
        } else {
          OutsideStays(r, fs, v, files, k, c);
        }
      }
    }
  }

  // ----- From events to events -----

  /** A directory leaves, files change, and the directory arrives: if database
      and files were in step at first, and every event on a file was harmless,
      they are in step at the end, with the files that the events tell of, under
      the new paths, if and only if all these files stay so. */
  lemma RenamePairKeepsSyncIff(
      env: Env, v: View, files: Files, left: Notice, between: seq<Notice>, arrived: Notice,
      org: CString, chg: CString, mid: View)
    requires NoFailures(env) && GoodWatches(v.watches) && InSync(env, v, files)
    requires DirEvent(v.watches, left, MovedFrom, org) && AllFiles(v.watches, between)
    requires RunEnds(env, LoopStep(env, v, left), between) && mid == LoopRun(env, LoopStep(env, v, left), between)
    requires Remembered(env, v, left, between) && AllHarmless(env, LoopStep(env, v, left), files, between)
    requires DirEvent(mid.watches, arrived, MovedTo, chg)
    requires var r := Renaming(env, arrived.kernel, org, chg);
             PlainTree(r, arrived.fs) && NewPlace(r, mid) && AllWatched(r, arrived.fs, mid.watches)
    ensures RunEnds(env, v, [left] + between + [arrived])
    ensures var r, now := Renaming(env, arrived.kernel, org, chg), FilesRun(files, between);
            var after := LoopRun(env, v, [left] + between + [arrived]);
            GoodWatches(after.watches) && (InSync(env, after, now) <==> AllStay(r, arrived.fs, mid, now))
  {
    var r, one := Renaming(env, arrived.kernel, org, chg), LoopStep(env, v, left);
    assert one == v.(prev := Prev(left.event.mask, left.event.wd, left.event.name));
    SyncIgnoresMemory(env, v, one, files);
    DatabaseFollowsEvents(env, one, files, between);
    FilesAreQuiet(env, one, between, left.event.wd);
    SyncFollowsIff(r, arrived.fs, mid, FilesRun(files, between));
    PairIsRename(env, v, left, between, arrived, org, chg, mid);
  }

  lemma SyncIgnoresMemory(env: Env, v: View, w: View, files: Files)
    requires InSync(env, v, files) && w == v.(prev := w.prev)
    ensures InSync(env, w, files)
  {
    forall c | Tracked(w.watches, c) ensures forall i :: 0 <= i < |w.db| ==> InSyncAt(env, w, files, c, i) {
      forall i: nat | i < |w.db| ensures InSyncAt(env, w, files, c, i) {
        assert InSyncAt(env, v, files, c, i);
      }
    }
  }

  // ----- A rename to a shorter path -----

  /** A directory with one file, that is watched behind another directory. */
  ghost predicate OneFile(r: Renaming, first: CString, n: CString) {
    && Apart(r.org, r.chg) && !StorageOf(r.org).NoStorage? && !StorageOf(r.chg).NoStorage?
    && !Under(r.org, first) && !Under(r.chg, first) && first != r.org
    && '/' !in n && Considered(2, n) && NoFailures(r.env)
    && |Join(r.org, n)| <= MS_FILE_PATH_LEN_MAX - 2 && |Join(r.chg, n)| <= MS_FILE_PATH_LEN_MAX - 2
  }

  function OneFileTree(chg: CString, n: CString): Fs {
    map[chg := [Dirent(n, Reg)]]
  }

  function OneFileView(r: Renaming, first: CString, n: CString, prev: Prev): View {
    var p := Join(r.org, n);
    View([Watch(first, 1), Watch(r.org, 2)], [],
         [if r.env.Accepts(0, p) then map[p := Record(StorageOf(p), true)] else map[]], prev)
  }

  function OneFileThere(n: CString): Files {
    map[Created(2, n) := Present]
  }

  lemma OneFileCalled(chg: CString, n: CString, q: CString)
    ensures Called(OneFileTree(chg, n), chg, q) <==> q == chg
  {
    var fs := OneFileTree(chg, n);
    assert Route(fs, Spot(chg, None), Spot(chg, None), 0);
    if Called(fs, chg, q) {
      var k: nat :| Route(fs, Spot(chg, None), Spot(q, None), k);
      assert forall d :: !Enters(fs, Spot(chg, None), d);
    }
  }

  lemma OneFileInSync(r: Renaming, first: CString, n: CString, prev: Prev)
    requires OneFile(r, first, n)
    ensures var v := OneFileView(r, first, n, prev); GoodWatches(v.watches) && InSync(r.env, v, OneFileThere(n))
  {
    var v, files, p := OneFileView(r, first, n, prev), OneFileThere(n), Join(r.org, n);
    forall c | Tracked(v.watches, c)
      ensures !StatusOf(files, c).Open? && PathFor(v.watches, c.wd, c.name).Some? && InSyncAt(r.env, v, files, c, 0)
    {
      var k :| 0 <= k < |v.watches| && v.watches[k].wd == c.wd;
      TrackedPath(v.watches, c, k);
      if Join(v.watches[k].name, c.name) == p {
        JoinInjective(v.watches[k].name, c.name, r.org, n);
      }
    }
  }

  lemma OneFilePlain(r: Renaming, first: CString, n: CString)
    requires OneFile(r, first, n)
    ensures PlainTree(r, OneFileTree(r.chg, n)) && MetIn(OneFileTree(r.chg, n), r.chg, Join(r.chg, n), Reg)
  {
    var fs, d := OneFileTree(r.chg, n), Dirent(n, Reg);
    assert fs[r.chg] == [d];
    OneFileCalled(r.chg, n, r.chg);
    assert d in Reachable.Listing(fs, r.chg) && IsOther(r.chg, d, Join(r.chg, n), Reg);
  }

  lemma OneFileWatched(r: Renaming, first: CString, n: CString, prev: Prev)
    requires OneFile(r, first, n)
    ensures var v := OneFileView(r, first, n, prev);
            NewPlace(r, v) && AllWatched(r, OneFileTree(r.chg, n), v.watches)
  {
    var fs, v := OneFileTree(r.chg, n), OneFileView(r, first, n, prev);
    UnderJoin(r.org, r.org, n);
    if Under(r.chg, Join(r.org, n)) {
      NotUnderBoth(r.org, r.chg, Join(r.org, n));
    }
    forall q | Called(fs, r.chg, q) ensures Named(v.watches, Rebased(r.chg, r.org, q)) {
      OneFileCalled(r.chg, n, q);
      assert v.watches[1].name == Rebased(r.chg, r.org, q);
    }
  }

  /** The file stays so just if the plugin does not accept it only now. */
  lemma OneFileStays(r: Renaming, first: CString, n: CString, prev: Prev)
    requires OneFile(r, first, n)
    ensures AllStay(r, OneFileTree(r.chg, n), OneFileView(r, first, n, prev), OneFileThere(n)) <==>
            (r.env.Accepts(0, Join(r.chg, n)) ==> r.env.Accepts(0, Join(r.org, n)))
  {
    var fs, v, files, c := OneFileTree(r.chg, n), OneFileView(r, first, n, prev), OneFileThere(n), Created(2, n);
    OneFilePlain(r, first, n);
    OneFileCalled(r.chg, n, Rebased(r.org, r.chg, r.org));
    assert Relocated(r, fs, v.watches, 1, c);
    assert Rebased(r.org, r.chg, Join(r.org, n)) == Join(r.chg, n) by {
      RebasedJoin(r.org, r.chg, r.org, n);
    }
    forall k: nat, x | Relocated(r, fs, v.watches, k, x) && StatusOf(files, x).Present? ensures k == 1 && x == c {
    }
    assert StaysAt(r, fs, files, c, Join(r.org, n), 0) <==>
           (r.env.Accepts(0, Join(r.chg, n)) ==> r.env.Accepts(0, Join(r.org, n)));
  }

  /** Such a rename meets what the theorem asks, whatever the lengths of the two
      paths, and keeps database and files in step if and only if the plugin does
      not accept the file only now. */
  lemma OneFileStaysIff(r: Renaming, first: CString, n: CString, prev: Prev)
    requires OneFile(r, first, n)
    ensures var fs, v, files := OneFileTree(r.chg, n), OneFileView(r, first, n, prev), OneFileThere(n);
            && Setting(r, fs, v, files)
            && Progresses(fs, Spot(r.chg, Some(r.org)))
            && (InSync(r.env, FollowedView(r, fs, v), files) <==>
                  (r.env.Accepts(0, Join(r.chg, n)) ==> r.env.Accepts(0, Join(r.org, n))))
  {
    OneFilePlain(r, first, n);
    OneFileWatched(r, first, n, prev);
    OneFileInSync(r, first, n, prev);
    OneFileStays(r, first, n, prev);
    SyncFollowsIff(r, OneFileTree(r.chg, n), OneFileView(r, first, n, prev), OneFileThere(n));
  }

  lemma DifferAt(p: CString, q: CString, k: nat)
    requires k < |p| && k < |q| && p[k] != q[k]
    ensures Apart(p, q)
  {
    assert (p + "/")[k] == p[k] && (q + "/")[k] == q[k];
  }

  /** For example under a name that is shorter than the old one. */
  lemma ShorterName(r: Renaming, first: CString, prev: Prev)
    requires r.org == "/opt/media/abc" && r.chg == "/opt/media/b" && first == "/opt/data/file-manager-service"
    requires NoFailures(r.env) && r.env.Accepts(0, Join(r.org, "f")) && r.env.Accepts(0, Join(r.chg, "f"))
    ensures var fs, v := OneFileTree(r.chg, "f"), OneFileView(r, first, "f", prev);
            && Setting(r, fs, v, OneFileThere("f")) && Progresses(fs, Spot(r.chg, Some(r.org)))
            && InSync(r.env, FollowedView(r, fs, v), OneFileThere("f"))
  {
    DifferAt(r.org, r.chg, 11);
    DifferAt(r.org, first, 5);
    DifferAt(r.chg, first, 5);
    assert OneFile(r, first, "f");
    OneFileStaysIff(r, first, "f", prev);
  }
}
