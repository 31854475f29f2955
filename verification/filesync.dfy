/** How events on files keep the database in step with the files: the simple
    file model that the file branch of the event loop refines. */
module FileSync {
  import opened Base
  import opened MediaDb
  import opened WatchList
  import opened CreateList
  import opened InotifyEvents

  /** A file is absent, created but not yet closed, or there for good. */
  datatype Status = Absent | Open | Present

  type Files = map<Created, Status>

  function StatusOf(files: Files, c: Created): Status {
    if c in files then files[c] else Absent
  }

  function StatusAfter(s: Status, kind: Kind): Status {
    match kind
    case MovedFrom => Absent
    case Deleted => Absent
    case MovedTo => Present
    case Creation => if s.Present? then Present else Open
    case CloseWrite => if s.Absent? then Absent else Present
    case Other => s
  }

  function FilesEffect(files: Files, c: Created, kind: Kind): Files {
    files[c := StatusAfter(StatusOf(files, c), kind)]
  }

  function FilesAfter(files: Files, n: Notice): Files {
    FilesEffect(files, Created(n.event.wd, n.event.name), KindOf(n.event.mask))
  }

  /** The descriptors are those of the list, and the name makes a plain path within the limit. */
  ghost predicate Tracked(ws: seq<Watch>, c: Created) {
    && Considered(c.wd, c.name)
    && '/' !in c.name
    && exists k :: 0 <= k < |ws| && ws[k].wd == c.wd && |Join(ws[k].name, c.name)| <= MS_FILE_PATH_LEN_MAX - 2
  }

  /** An event on a tracked file. */
  ghost predicate FileNotice(ws: seq<Watch>, n: Notice) {
    !Has(n.event.mask, IN_ISDIR) && Tracked(ws, Created(n.event.wd, n.event.name)) && FittingLen(n.event.len)
  }

  /** The one thing that puts database and files out of step: a file that is
      gone is closed after writing while the create list still has an entry of
      it, and some plugin accepts it. */
  ghost predicate Harmless(env: Env, v: View, files: Files, c: Created, kind: Kind) {
    kind.CloseWrite? && StatusOf(files, c).Absent? && c in v.created ==>
      var p := PathFor(v.watches, c.wd, c.name);
      p.Some? ==> forall i :: 0 <= i < |v.db| ==> !env.Accepts(i, p.value)
  }

  /** Each plugin has exactly the tracked files that are present and that it
      accepts, and no file that is still open has been forgotten. */
  ghost predicate InSync(env: Env, v: View, files: Files) {
    && WellFiled(v.db)
    && forall c :: Tracked(v.watches, c) ==>
         && (StatusOf(files, c).Open? ==> c in v.created)
         && PathFor(v.watches, c.wd, c.name).Some?
         && forall i :: 0 <= i < |v.db| ==> InSyncAt(env, v, files, c, i)
  }

  ghost predicate InSyncAt(env: Env, v: View, files: Files, c: Created, i: nat)
    requires i < |v.db| && PathFor(v.watches, c.wd, c.name).Some?
  {
    var p := PathFor(v.watches, c.wd, c.name).value;
    p in v.db[i] <==> StatusOf(files, c).Present? && env.Accepts(i, p)
  }

  ghost predicate GoodWatches(ws: seq<Watch>) {
    DistinctNames(ws) && DistinctWds(ws)
  }

  lemma TrackedPath(ws: seq<Watch>, c: Created, k: nat)
    requires GoodWatches(ws) && Tracked(ws, c) && k < |ws| && ws[k].wd == c.wd
    ensures PathFor(ws, c.wd, c.name) == Some(Join(ws[k].name, c.name))
  {
    ResolveKnown(ws, c.wd, k);
    var m :| 0 <= m < |ws| && ws[m].wd == c.wd && |Join(ws[m].name, c.name)| <= MS_FILE_PATH_LEN_MAX - 2;
    assert m == k;
  }

  /** Different tracked files have different paths. */
  lemma SamePathSameFile(ws: seq<Watch>, c1: Created, c2: Created)
    requires GoodWatches(ws) && Tracked(ws, c1) && Tracked(ws, c2)
    ensures PathFor(ws, c1.wd, c1.name).Some? && PathFor(ws, c2.wd, c2.name).Some?
    ensures PathFor(ws, c1.wd, c1.name) == PathFor(ws, c2.wd, c2.name) ==> c1 == c2
  {
    var k1 :| 0 <= k1 < |ws| && ws[k1].wd == c1.wd;
    var k2 :| 0 <= k2 < |ws| && ws[k2].wd == c2.wd;
    TrackedPath(ws, c1, k1);
    TrackedPath(ws, c2, k2);
    if Join(ws[k1].name, c1.name) == Join(ws[k2].name, c2.name) {
      JoinInjective(ws[k1].name, c1.name, ws[k2].name, c2.name);
    }
  }

  /** What registering and deleting a path do to one plugin. */
  lemma DbOpsAt(env: Env, db: Db, p: CString, q: CString, i: nat)
    requires NoFailures(env) && WellFiled(db) && i < |db|
    requires forall k :: 0 <= k < |db| && p in db[k] ==> env.Accepts(k, p)
    ensures WellFiled(Registered(env, db, p)) && WellFiled(DeleteItem(env, db, p))
    ensures |Registered(env, db, p)| == |db| == |DeleteItem(env, db, p)|
    ensures q in DeleteItem(env, db, p)[i] <==> q in db[i] && q != p
    ensures q in Registered(env, db, p)[i] <==> q in db[i] || (q == p && env.Accepts(i, p))
  {
    assert !env.fails(InsertNow, i, p) && !env.fails(Delete, i, p);
    var r: Db, d: Db := Registered(env, db, p), DeleteItem(env, db, p);
    forall k: nat, x: CString | k < |db| && x in r[k] ensures r[k][x].storage == StorageOf(x) {
      if x in db[k] {
        assert db[k][x].storage == StorageOf(x);
      }
      if !InAll(db, p) && env.mime(p) {
        assert r[k] == InsertOne(env, InsertNow, k, db[k], p);
      }
    }
    assert forall k :: 0 <= k < |db| ==> d[k] == DeleteOne(env, k, db[k], p);
    if InAll(db, p) {
      assert Exists(db[i], p, StorageOf(p));
    } else if env.mime(p) {
      assert r[i] == InsertOne(env, InsertNow, i, db[i], p);
    }
  }

  /** One event keeps database and file system in step if and only if it is harmless. */
  lemma EffectKeepsSyncIff(env: Env, v: View, files: Files, c: Created, kind: Kind, refreshed: bool)
    requires NoFailures(env) && GoodWatches(v.watches) && InSync(env, v, files) && Tracked(v.watches, c)
    ensures PathFor(v.watches, c.wd, c.name).Some?
    ensures var p := PathFor(v.watches, c.wd, c.name).value;
            |FileEffect(env, v, c, kind, p, refreshed).db| == |v.db|
            && (InSync(env, FileEffect(env, v, c, kind, p, refreshed), FilesEffect(files, c, kind))
                <==> Harmless(env, v, files, c, kind))
  {
    var ws, p := v.watches, PathFor(v.watches, c.wd, c.name).value;
    var v', files' := FileEffect(env, v, c, kind, p, refreshed), FilesEffect(files, c, kind);
    assert v'.watches == ws;
    forall k | 0 <= k < |v.db| && p in v.db[k] ensures env.Accepts(k, p) {
      assert InSyncAt(env, v, files, c, k);
    }
    if v.db != [] {
      DbOpsAt(env, v.db, p, p, 0);
    }
    forall d | Tracked(ws, d) ensures StatusOf(files', d).Open? ==> d in v'.created {
      OpenRemembered(env, v, files, c, kind, refreshed, p, d);
    }
    forall d, i: nat | Tracked(ws, d) && i < |v'.db| && Harmless(env, v, files, c, kind)
      ensures InSyncAt(env, v', files', d, i)
    {
      StaysInSyncAt(env, v, files, c, kind, refreshed, d, i);
    }
    if !Harmless(env, v, files, c, kind) {
      var i :| 0 <= i < |v.db| && env.Accepts(i, p);
      ReturnsToDatabase(env, v, files, c, refreshed, i);
      assert !InSyncAt(env, v', files', c, i);
    }
  }

  /** The stale entry brings the item of the absent file into the database. */
  lemma ReturnsToDatabase(env: Env, v: View, files: Files, c: Created, refreshed: bool, i: nat)
    requires NoFailures(env) && GoodWatches(v.watches) && InSync(env, v, files) && Tracked(v.watches, c)
    requires c in v.created && i < |v.db|
    ensures PathFor(v.watches, c.wd, c.name).Some?
    ensures var p := PathFor(v.watches, c.wd, c.name).value;
            var after := FileEffect(env, v, c, CloseWrite, p, refreshed);
            |after.db| == |v.db| && (env.Accepts(i, p) ==> p in after.db[i])
  {
    var p := PathFor(v.watches, c.wd, c.name).value;
    forall k | 0 <= k < |v.db| && p in v.db[k] ensures env.Accepts(k, p) {
      assert InSyncAt(env, v, files, c, k);
    }
    DbOpsAt(env, v.db, p, p, i);
    assert LastIndex(v.created, c) >= 0;
  }

  /** One file and one plugin, after a harmless event. */
  lemma StaysInSyncAt(
      env: Env, v: View, files: Files, c: Created, kind: Kind, refreshed: bool, d: Created, i: nat)
    requires NoFailures(env) && GoodWatches(v.watches) && InSync(env, v, files)
    requires Tracked(v.watches, c) && Tracked(v.watches, d) && i < |v.db| && Harmless(env, v, files, c, kind)
    ensures PathFor(v.watches, c.wd, c.name).Some?
    ensures var v' := FileEffect(env, v, c, kind, PathFor(v.watches, c.wd, c.name).value, refreshed);
            |v'.db| == |v.db| && v'.watches == v.watches && PathFor(v.watches, d.wd, d.name).Some?
            && InSyncAt(env, v', FilesEffect(files, c, kind), d, i)
  {
    var ws, p, q := v.watches, PathFor(v.watches, c.wd, c.name).value, PathFor(v.watches, d.wd, d.name).value;
    assert InSyncAt(env, v, files, d, i);
    forall k | 0 <= k < |v.db| && p in v.db[k] ensures env.Accepts(k, p) {
      assert InSyncAt(env, v, files, c, k);
    }
    DbOpsAt(env, v.db, p, q, i);
    SamePathSameFile(ws, d, c);
    if d == c {
      assert q == p && StatusOf(FilesEffect(files, c, kind), d) == StatusAfter(StatusOf(files, c), kind);
      if kind.CloseWrite? && LastIndex(v.created, c) < 0 {
        assert !StatusOf(files, c).Open?;
      }
    } else {
      assert q != p && StatusOf(FilesEffect(files, c, kind), d) == StatusOf(files, d);
    }
  }

  lemma OpenRemembered(
      env: Env, v: View, files: Files, c: Created, kind: Kind, refreshed: bool, p: CString, d: Created)
    requires StatusOf(files, d).Open? ==> d in v.created
    ensures StatusOf(FilesEffect(files, c, kind), d).Open? ==> d in FileEffect(env, v, c, kind, p, refreshed).created
  {
    if kind.CloseWrite? && d != c && StatusOf(files, d).Open? {
      var k := LastIndex(v.created, c);
      if k >= 0 {
        var j :| 0 <= j < |v.created| && v.created[j] == d;
        assert WithoutAt(v.created, k)[if j < k then j else j - 1] == d;
      }
    }
  }

  function FilesRun(files: Files, notices: seq<Notice>): Files {
    if notices == [] then files
    else FilesAfter(FilesRun(files, notices[..|notices| - 1]), notices[|notices| - 1])
  }

  /** Every event is on a tracked file. */
  ghost predicate AllFiles(ws: seq<Watch>, notices: seq<Notice>) {
    forall k :: 0 <= k < |notices| ==> FileNotice(ws, notices[k])
  }

  /** Every event is harmless when it happens. */
  ghost predicate AllHarmless(env: Env, v: View, files: Files, notices: seq<Notice>)
    requires RunEnds(env, v, notices)
  {
    notices == [] ||
    var init, last := notices[..|notices| - 1], notices[|notices| - 1].event;
    AllHarmless(env, v, files, init)
    && Harmless(env, LoopRun(env, v, init), FilesRun(files, init), Created(last.wd, last.name), KindOf(last.mask))
  }

  /** Database and files are in step after each event. */
  ghost predicate SyncThroughout(env: Env, v: View, files: Files, notices: seq<Notice>)
    requires RunEnds(env, v, notices)
  {
    notices == [] ||
    (SyncThroughout(env, v, files, notices[..|notices| - 1])
     && InSync(env, LoopRun(env, v, notices), FilesRun(files, notices)))
  }

  /** On every stream of events on tracked files each plugin has, after each of
      them and with any stale or repeated entries left in the create list,
      exactly the files that the simple file model calls present and that it
      accepts - if and only if every event is harmless. */
  lemma {:induction false} DatabaseFollowsEvents(env: Env, v: View, files: Files, notices: seq<Notice>)
    requires NoFailures(env) && GoodWatches(v.watches) && InSync(env, v, files) && AllFiles(v.watches, notices)
    ensures RunEnds(env, v, notices)
    ensures LoopRun(env, v, notices).watches == v.watches && |LoopRun(env, v, notices).db| == |v.db|
    ensures SyncThroughout(env, v, files, notices) <==> AllHarmless(env, v, files, notices)
    ensures AllHarmless(env, v, files, notices) ==> InSync(env, LoopRun(env, v, notices), FilesRun(files, notices))
    decreases |notices|
  {
    FilesEnd(env, v, notices);
    if notices != [] {
      var init, last := notices[..|notices| - 1], notices[|notices| - 1];
      DatabaseFollowsEvents(env, v, files, init);
      var mid := LoopRun(env, v, init);
      assert FileNotice(v.watches, last);
      assert LoopRun(env, v, notices) == FileStep(env, mid, last);
      FileStepKeepsSize(env, mid, last);
      if AllHarmless(env, v, files, init) {
        EffectKeepsSyncIff(env, mid, FilesRun(files, init),
                           Created(last.event.wd, last.event.name), KindOf(last.event.mask), last.refreshed);
      }
    }
  }

  lemma FileStepKeepsSize(env: Env, v: View, n: Notice)
    ensures FileStep(env, v, n).watches == v.watches && |FileStep(env, v, n).db| == |v.db|
  {
  }

  /** Spelled out for one file and one plugin: the item is there if and only if
      the file is present and the plugin accepts it. */
  lemma ItemIffPresent(
      env: Env, v: View, files: Files, notices: seq<Notice>, c: Created, i: nat)
    requires NoFailures(env) && GoodWatches(v.watches) && InSync(env, v, files) && i < |v.db|
    requires AllFiles(v.watches, notices) && RunEnds(env, v, notices) && AllHarmless(env, v, files, notices)
    requires Tracked(v.watches, c)
    ensures PathFor(v.watches, c.wd, c.name).Some?
    ensures var p, after := PathFor(v.watches, c.wd, c.name).value, LoopRun(env, v, notices);
            |after.db| == |v.db|
            && (p in after.db[i] <==> StatusOf(FilesRun(files, notices), c).Present? && env.Accepts(i, p))
  {
    DatabaseFollowsEvents(env, v, files, notices);
    assert InSyncAt(env, LoopRun(env, v, notices), FilesRun(files, notices), c, i);
  }

  /** It happens to any file that is created, deleted while still open, and
      then closed: the file is gone, its item is there. */
  lemma DeletedWhileOpen(env: Env, v: View, files: Files, c: Created, i: nat)
    requires NoFailures(env) && GoodWatches(v.watches) && InSync(env, v, files) && Tracked(v.watches, c) && i < |v.db|
    requires StatusOf(files, c).Absent?
    ensures PathFor(v.watches, c.wd, c.name).Some?
    ensures var p := PathFor(v.watches, c.wd, c.name).value;
            var v1 := FileEffect(env, v, c, Creation, p, true);
            var v2 := FileEffect(env, v1, c, Deleted, p, true);
            var v3 := FileEffect(env, v2, c, CloseWrite, p, true);
            var files3 := FilesEffect(FilesEffect(FilesEffect(files, c, Creation), c, Deleted), c, CloseWrite);
            StatusOf(files3, c).Absent? && |v3.db| == |v.db| && (env.Accepts(i, p) ==> p in v3.db[i])
  {
    var k :| 0 <= k < |v.watches| && v.watches[k].wd == c.wd;
    TrackedPath(v.watches, c, k);
    var p := PathFor(v.watches, c.wd, c.name).value;
    EffectKeepsSyncIff(env, v, files, c, Creation, true);
    var v1, files1 := FileEffect(env, v, c, Creation, p, true), FilesEffect(files, c, Creation);
    EffectKeepsSyncIff(env, v1, files1, c, Deleted, true);
    var v2 := FileEffect(env, v1, c, Deleted, p, true);
    assert v1.created[|v.created|] == c && v2.created == v1.created;
    ReturnsToDatabase(env, v2, FilesEffect(files1, c, Deleted), c, true, i);
  }

  // ----- The create list -----

  /** How many creations of a file are not closed yet: one more with each
      creation, one less with each close, if there are any. */
  function Unclosed(count: nat, notices: seq<Notice>, c: Created): nat {
    if notices == [] then count
    else
      var before, e := Unclosed(count, notices[..|notices| - 1], c), notices[|notices| - 1].event;
      if Created(e.wd, e.name) != c then before
      else match KindOf(e.mask)
           case Creation => before + 1
           case CloseWrite => if before > 0 then before - 1 else 0
           case _ => before
  }

  lemma LastIndexTells(cs: seq<Created>, c: Created)
    ensures LastIndex(cs, c) >= 0 <==> multiset(cs)[c] > 0
  {
    var k := LastIndex(cs, c);
    if k >= 0 {
      assert cs[k] == c && c in cs;
    }
  }

  /** Taking off the most recent entry of `d`, if there is one. */
  lemma OneEntryLess(created: seq<Created>, d: Created, c: Created)
    ensures var k := LastIndex(created, d);
            multiset(if k >= 0 then WithoutAt(created, k) else created)[c] ==
            multiset(created)[c] - if c == d && multiset(created)[c] > 0 then 1 else 0
  {
    LastIndexTells(created, d);
    if LastIndex(created, d) >= 0 {
      RemovedOnce(created, d);
    }
  }

  lemma EntriesAfter(env: Env, v: View, n: Notice, c: Created)
    requires GoodWatches(v.watches) && FileNotice(v.watches, n)
    ensures multiset(FileStep(env, v, n).created)[c] == Unclosed(multiset(v.created)[c], [n], c)
  {
    var d, e := Created(n.event.wd, n.event.name), n.event;
    var k :| 0 <= k < |v.watches| && v.watches[k].wd == e.wd;
    TrackedPath(v.watches, d, k);
    EntriesOfOne(env, v, d, KindOf(e.mask), PathFor(v.watches, e.wd, e.name).value, n.refreshed, c);
    assert [n][..0] == [];
  }

  lemma EntriesOfOne(env: Env, v: View, d: Created, kind: Kind, path: CString, refreshed: bool, c: Created)
    ensures multiset(FileEffect(env, v, d, kind, path, refreshed).created)[c] ==
            var before := multiset(v.created)[c];
            if c != d then before
            else if kind.Creation? then before + 1
            else if kind.CloseWrite? && before > 0 then before - 1
            else before
  {
    OneEntryLess(v.created, d, c);
  }

  /** On every stream of events on tracked files the create list has, for each
      file, exactly as many entries as there are creations not closed yet. */
  lemma {:induction false} CreateListIsExact(env: Env, v: View, notices: seq<Notice>, c: Created)
    requires GoodWatches(v.watches) && AllFiles(v.watches, notices)
    ensures RunEnds(env, v, notices) && LoopRun(env, v, notices).watches == v.watches
    ensures multiset(LoopRun(env, v, notices).created)[c] == Unclosed(multiset(v.created)[c], notices, c)
  {
    FilesEnd(env, v, notices);
    if notices != [] {
      var init, last := notices[..|notices| - 1], notices[|notices| - 1];
      CreateListIsExact(env, v, init, c);
      assert FileNotice(v.watches, last);
      var mid := LoopRun(env, v, init);
      EntriesAfter(env, mid, last, c);
      FileStepKeepsSize(env, mid, last);
      assert [last][..0] == [];
    }
  }
}
