/** The recursive walks of media-server-inotify.c: registering a new directory
    tree and following a renamed one, as one list of steps. */
module RecursiveWalk {
  import opened Base
  import opened FileTree
  import opened MediaDb
  import opened WalkEnds
  import opened WatchList
  import Reachable

  /** opendir opens nothing but directories: of the entry types whose code has
      the DT_DIR bit only DT_DIR itself can be opened. */
  ghost predicate OnlyDirsOpen(fs: Fs) {
    forall p, d :: p in fs && d in fs[p] && IsChild(fs, p, d) ==> d.dtype.Dir?
  }

  datatype Step = Visit(dir: CString) | File(path: CString, dtype: DType)

  /** What a walk meets, in order: each directory when it is opened, each other
      entry where it is listed. */
  ghost function Walk(fs: Fs, p: CString): seq<Step>
    requires Progresses(fs, Spot(p, None))
    decreases Depth(p), if p in fs then |fs[p]| + 1 else 0
  {
    if p in fs then [Visit(p)] + WalkEntries(fs, p, |fs[p]|) else []
  }

  ghost function WalkEntries(fs: Fs, p: CString, count: nat): seq<Step>
    requires Progresses(fs, Spot(p, None)) && p in fs && count <= |fs[p]|
    decreases Depth(p), count
  {
    if count == 0 then []
    else
      var d := fs[p][count - 1];
      WalkEntries(fs, p, count - 1) + WalkEntry(fs, p, d, count - 1)
  }

  /** A hidden entry, and one whose path ms_strappend refuses, is passed over. */
  ghost function WalkEntry(fs: Fs, p: CString, d: Dirent, rank: nat): seq<Step>
    requires Progresses(fs, Spot(p, None)) && p in fs && d in fs[p]
    decreases Depth(p), rank
  {
    var q := StrAppend(p, d.name);
    if Hidden(d.name) || q.Err? then []
    else if d.dtype.Dir? then
      Deeper(fs, Spot(p, None), d);
      Walk(fs, q.value)
    else [File(q.value, d.dtype)]
  }

  // ----- The directories of a walk are those of the stackless traversal -----

  function Visits(steps: seq<Step>): seq<CString> {
    if steps == [] then []
    else (if steps[0].Visit? then [steps[0].dir] else []) + Visits(steps[1..])
  }

  lemma {:induction false} VisitsConcat(a: seq<Step>, b: seq<Step>)
    ensures Visits(a + b) == Visits(a) + Visits(b)
  {
    if a == [] {
      assert a + b == b;
    } else {
      assert (a + b)[1..] == a[1..] + b;
      VisitsConcat(a[1..], b);
    }
  }

  lemma {:induction false} PreorderAllConcat(fs: Fs, p: CString, a: seq<CString>, b: seq<CString>)
    requires |p| <= MS_FILE_PATH_LEN_MAX && AllFit(p, a) && AllFit(p, b)
    ensures AllFit(p, a + b)
    ensures PreorderAll(fs, p, a + b) == PreorderAll(fs, p, a) + PreorderAll(fs, p, b)
    decreases |a|
  {
    assert AllFit(p, a + b);
    if a == [] {
      assert a + b == b;
    } else {
      assert (a + b)[1..] == a[1..] + b;
      PreorderAllConcat(fs, p, a[1..], b);
    }
  }

  /** None of these directories has a child whose path ms_strappend cuts. */
  ghost predicate Uncut(fs: Fs, visits: seq<CString>) {
    forall v, d :: v in visits && d in Reachable.Listing(fs, v) && IsChild(fs, v, d) ==>
      |Join(v, d.name)| <= MS_FILE_PATH_LEN_MAX - 2
  }

  lemma UncutBelow(fs: Fs, p: CString, n: CString)
    requires |p| <= MS_FILE_PATH_LEN_MAX && n in Children(fs, p) && Uncut(fs, Preorder(fs, p))
    ensures |Join(p, n)| <= MS_FILE_PATH_LEN_MAX && Uncut(fs, Preorder(fs, Join(p, n)))
  {
    ChildrenFit(fs, p);
    forall x | x in Preorder(fs, Join(p, n)) ensures x in Preorder(fs, p) {
      Reachable.InPreorderAll(fs, p, Children(fs, p), n, x);
    }
  }

  /** Without cut paths the walk ends: each call goes to a directory that the
      stackless traversal visits, too. */
  lemma UncutEnds(fs: Fs, p: CString)
    requires |p| <= MS_FILE_PATH_LEN_MAX && Uncut(fs, Preorder(fs, p))
    ensures Progresses(fs, Spot(p, None))
  {
    forall t, k: nat | Route(fs, Spot(p, None), t, k) ensures !Stalls(fs, t) {
      UncutRoute(fs, p, t, k);
    }
  }

  lemma {:induction false} UncutRoute(fs: Fs, p: CString, t: Spot, k: nat)
    requires |p| <= MS_FILE_PATH_LEN_MAX && Uncut(fs, Preorder(fs, p)) && Route(fs, Spot(p, None), t, k)
    ensures !Stalls(fs, t)
    decreases k
  {
    if k == 0 {
      if Stalls(fs, t) {
        var d :| Enters(fs, t, d) && Into(t, d).dir == t.dir;
        assert p in Preorder(fs, p) && IsChild(fs, p, d) && d in Reachable.Listing(fs, p);
      }
    } else {
      var d :| Enters(fs, Spot(p, None), d) && Route(fs, Into(Spot(p, None), d), t, k - 1);
      var q := Into(Spot(p, None), d).dir;
      if q in fs {
        assert p in Preorder(fs, p) && IsChild(fs, p, d) && d in Reachable.Listing(fs, p);
        Reachable.ChildrenMembers(fs, p, d.name);
        UncutBelow(fs, p, d.name);
        assert q == Join(p, d.name);
        UncutRoute(fs, q, t, k - 1);
      }
    }
  }

  lemma {:induction false} WalkVisitsPreorder(fs: Fs, p: CString)
    requires OnlyDirsOpen(fs) && p in fs && |p| <= MS_FILE_PATH_LEN_MAX
    requires Uncut(fs, Preorder(fs, p))
    ensures Progresses(fs, Spot(p, None))
    ensures Visits(Walk(fs, p)) == Preorder(fs, p)
    decreases Depth(p), |fs[p]| + 1
  {
    UncutEnds(fs, p);
    EntriesVisitPreorder(fs, p, |fs[p]|);
    VisitsConcat([Visit(p)], WalkEntries(fs, p, |fs[p]|));
    ChildrenFit(fs, p);
  }

  lemma {:induction false} EntriesVisitPreorder(fs: Fs, p: CString, count: nat)
    requires Progresses(fs, Spot(p, None)) && OnlyDirsOpen(fs) && p in fs && |p| <= MS_FILE_PATH_LEN_MAX
    requires count <= |fs[p]| && Uncut(fs, Preorder(fs, p))
    ensures AllFit(p, ChildrenIn(fs, p, fs[p], count))
    ensures Visits(WalkEntries(fs, p, count)) == PreorderAll(fs, p, ChildrenIn(fs, p, fs[p], count))
    decreases Depth(p), count
  {
    ChildrenInFit(fs, p, fs[p], count);
    if count > 0 {
      var d := fs[p][count - 1];
      var before, here := ChildrenIn(fs, p, fs[p], count - 1), if IsChild(fs, p, d) then [d.name] else [];
      var steps, entry := WalkEntries(fs, p, count - 1), WalkEntry(fs, p, d, count - 1);
      EntriesVisitPreorder(fs, p, count - 1);
      EntryVisitsPreorder(fs, p, d, count - 1);
      assert ChildrenIn(fs, p, fs[p], count) == before + here && WalkEntries(fs, p, count) == steps + entry;
      VisitsConcat(steps, entry);
      PreorderAllConcat(fs, p, before, here);
    }
  }

  lemma {:induction false} EntryVisitsPreorder(fs: Fs, p: CString, d: Dirent, rank: nat)
    requires Progresses(fs, Spot(p, None)) && OnlyDirsOpen(fs) && p in fs && |p| <= MS_FILE_PATH_LEN_MAX && d in fs[p]
    requires Uncut(fs, Preorder(fs, p))
    ensures var here := if IsChild(fs, p, d) then [d.name] else [];
            AllFit(p, here) && Visits(WalkEntry(fs, p, d, rank)) == PreorderAll(fs, p, here)
    decreases Depth(p), rank
  {
    if IsChild(fs, p, d) {
      var q := Join(p, d.name);
      Reachable.ChildrenMembers(fs, p, d.name);
      UncutBelow(fs, p, d.name);
      assert p in Preorder(fs, p) && StrAppend(p, d.name) == Ok(q);
      WalkVisitsPreorder(fs, q);
      assert PreorderAll(fs, p, [d.name]) == Preorder(fs, q) + PreorderAll(fs, p, []);
    }
  }

  lemma {:induction false} WalkVisitsShort(fs: Fs, p: CString, q: CString)
    requires Progresses(fs, Spot(p, None)) && q in Visits(Walk(fs, p))
    ensures q == p || |q| <= MS_FILE_PATH_LEN_MAX - 2
    decreases Depth(p), if p in fs then |fs[p]| + 1 else 0
  {
    VisitsConcat([Visit(p)], WalkEntries(fs, p, |fs[p]|));
    if q != p {
      EntriesVisitShort(fs, p, |fs[p]|, q);
    }
  }

  lemma {:induction false} EntriesVisitShort(fs: Fs, p: CString, count: nat, q: CString)
    requires Progresses(fs, Spot(p, None)) && p in fs && count <= |fs[p]| && q in Visits(WalkEntries(fs, p, count))
    ensures |q| <= MS_FILE_PATH_LEN_MAX - 2
    decreases Depth(p), count
  {
    var d := fs[p][count - 1];
    var r := StrAppend(p, d.name);
    VisitsConcat(WalkEntries(fs, p, count - 1), WalkEntry(fs, p, d, count - 1));
    if q in Visits(WalkEntries(fs, p, count - 1)) {
      EntriesVisitShort(fs, p, count - 1, q);
    } else {
      Deeper(fs, Spot(p, None), d);
      WalkVisitsShort(fs, r.value, q);
    }
  }

  /** The recursive walk ends and opens the same directories in the same order as
      the stackless one if and only if no child path is cut on the way: the
      stackless one goes on with the whole path, the recursive one with the cut one. */
  lemma WalkVisitsPreorderIff(fs: Fs, p: CString)
    requires OnlyDirsOpen(fs) && p in fs && |p| <= MS_FILE_PATH_LEN_MAX
    ensures Progresses(fs, Spot(p, None)) && Visits(Walk(fs, p)) == Preorder(fs, p) <==> Uncut(fs, Preorder(fs, p))
  {
    if Uncut(fs, Preorder(fs, p)) {
      WalkVisitsPreorder(fs, p);
    } else if Progresses(fs, Spot(p, None)) {
      var v, d :| v in Preorder(fs, p) && d in Reachable.Listing(fs, v) && IsChild(fs, v, d)
                  && |Join(v, d.name)| > MS_FILE_PATH_LEN_MAX - 2;
      LongChildVisited(fs, p, v, d);
      if Join(v, d.name) in Visits(Walk(fs, p)) {
        WalkVisitsShort(fs, p, Join(v, d.name));
      }
    }
  }

  lemma LongChildVisited(fs: Fs, p: CString, v: CString, d: Dirent)
    requires |p| <= MS_FILE_PATH_LEN_MAX && v in Preorder(fs, p)
    requires d in Reachable.Listing(fs, v) && IsChild(fs, v, d)
    ensures Join(v, d.name) in Preorder(fs, p) && |Join(v, d.name)| > |p|
  {
    Reachable.LeadsDownIff(fs, v, d);
    Reachable.PreorderSound(fs, p, v);
    var names :| Reachable.IsDescent(fs, p, names) && Reachable.Target(p, names) == v;
    Reachable.ChildrenMembers(fs, v, d.name);
    Reachable.DescentSnoc(fs, p, names, d.name);
    Reachable.PreorderComplete(fs, p, names + [d.name]);
    Reachable.TargetUnder(p, names);
  }

  /** A tree on which they differ: a directory whose path has 4096 characters
      and opens under the first 4094 of them. */
  lemma WalksDiffer(v: CString, n: CString)
    requires |v| == 4000 && |n| == 95 && !Hidden(n)
    ensures StrAppend(v, n).Ok?
    ensures var fs: Fs := map[v := [Dirent(n, Dir)], StrAppend(v, n).value := []];
            OnlyDirsOpen(fs) && Progresses(fs, Spot(v, None)) && Visits(Walk(fs, v)) != Preorder(fs, v)
  {
    var cut, d := StrAppend(v, n).value, Dirent(n, Dir);
    var fs: Fs := map[v := [d], cut := []];
    assert |cut| == 4094 && fs[v] == [d] && fs[cut] == [];
    WalkToCut(fs, v, d, cut);
    assert v in Preorder(fs, v) && IsChild(fs, v, d) && |Join(v, d.name)| == 4096;
    assert d in Reachable.Listing(fs, v);
    WalkVisitsPreorderIff(fs, v);
  }

  lemma WalkToCut(fs: Fs, v: CString, d: Dirent, cut: CString)
    requires v in fs && fs[v] == [d] && cut in fs && fs[cut] == [] && |v| < |cut| && StrAppend(v, d.name) == Ok(cut)
    ensures Progresses(fs, Spot(v, None)) && Progresses(fs, Spot(cut, None))
  {
    forall t, k: nat | Route(fs, Spot(cut, None), t, k) ensures !Stalls(fs, t) {
    }
    forall t, k: nat | Route(fs, Spot(v, None), t, k) ensures !Stalls(fs, t) {
      if k > 0 {
        var e :| Enters(fs, Spot(v, None), e) && Route(fs, Into(Spot(v, None), e), t, k - 1);
        assert e == d;
      }
    }
  }

  // ----- _ms_inoti_directory_scan_and_register_file -----

  /** The watch list and the database, as both walks change them. */
  datatype Both = Both(watches: seq<Watch>, db: Db)

  /** One step of registering a new tree; `kernel` answers inotify_add_watch. */
  function RegisterStep(env: Env, kernel: CString -> int, b: Both, step: Step): Both {
    match step
    case Visit(dir) => b.(watches := Added(b.watches, dir, kernel(dir)))
    case File(path, _) => b.(db := Registered(env, b.db, path))
  }

  function RegisterSteps(env: Env, kernel: CString -> int, b: Both, steps: seq<Step>): Both {
    if steps == [] then b
    else RegisterStep(env, kernel, RegisterSteps(env, kernel, b, steps[..|steps| - 1]), steps[|steps| - 1])
  }

  lemma {:induction false} RegisterConcat(env: Env, kernel: CString -> int, b: Both, s: seq<Step>, t: seq<Step>)
    ensures RegisterSteps(env, kernel, b, s + t) == RegisterSteps(env, kernel, RegisterSteps(env, kernel, b, s), t)
    decreases |t|
  {
    if t == [] {
      assert s + t == s;
    } else {
      assert (s + t)[..|s + t| - 1] == s + t[..|t| - 1];
      RegisterConcat(env, kernel, b, s, t[..|t| - 1]);
    }
  }

  ghost predicate Holds(list: InotiList, svc: MediaService, b: Both)
    reads list, svc
  {
    list.watches == b.watches && svc.plugins == b.db
  }

  /** Registers a whole tree; the list and the database change step by step as in the walk. */
  method DirectoryScanAndRegister(
      fs: Fs, kernel: CString -> int, list: InotiList, svc: MediaService, dir_path: CString, ghost start: Both)
    returns (err: int)
    requires list.Valid() && Holds(list, svc, start) && Progresses(fs, Spot(dir_path, None))
    modifies list, list.Repr, svc
    ensures list.Valid() && fresh(list.Repr - old(list.Repr))
    ensures err == if dir_path in fs then MS_ERR_NONE else MS_ERR_DIR_OPEN_FAIL
    ensures Holds(list, svc, RegisterSteps(svc.env, kernel, start, Walk(fs, dir_path)))
    decreases Depth(dir_path), if dir_path in fs then |fs[dir_path]| + 1 else 0
  {
    if dir_path !in fs {
      return MS_ERR_DIR_OPEN_FAIL;
    }
    list.AddWatch(dir_path, kernel(dir_path));
    OneStep(svc.env, kernel, start, Visit(dir_path));
    assert [Visit(dir_path)] + [] == [Visit(dir_path)];
    var listing := fs[dir_path];
    var j := 0;
    while j < |listing|
      invariant 0 <= j <= |listing|
      invariant list.Valid() && fresh(list.Repr - old(list.Repr))
      invariant Holds(list, svc, UpTo(svc.env, kernel, start, fs, dir_path, j))
    {
      RegisterEntry(fs, kernel, list, svc, dir_path, listing[j], j, UpTo(svc.env, kernel, start, fs, dir_path, j));
      NextEntry(svc.env, kernel, start, fs, dir_path, j);
      j := j + 1;
    }
    err := MS_ERR_NONE;
  }

  /** The body of its loop. */
  method RegisterEntry(
      fs: Fs, kernel: CString -> int, list: InotiList, svc: MediaService, dir_path: CString, ent: Dirent,
      ghost rank: nat, ghost start: Both)
    requires list.Valid() && Holds(list, svc, start)
    requires Progresses(fs, Spot(dir_path, None)) && dir_path in fs && ent in fs[dir_path]
    modifies list, list.Repr, svc
    ensures list.Valid() && fresh(list.Repr - old(list.Repr))
    ensures Holds(list, svc, RegisterSteps(svc.env, kernel, start, WalkEntry(fs, dir_path, ent, rank)))
    decreases Depth(dir_path), rank
  {
    if Hidden(ent.name) {
      return;
    }
    var path := StrAppend(dir_path, ent.name);
    if path.Err? {
      return;
    }
    if ent.dtype.Dir? {
      Deeper(fs, Spot(dir_path, None), ent);
      var sub := DirectoryScanAndRegister(fs, kernel, list, svc, path.value, start);
    } else {
      OneStep(svc.env, kernel, start, File(path.value, ent.dtype));
      var res := svc.RegisterFile(path.value);
    }
  }

  /** The state when the first `j` entries of the directory are done. */
  ghost function UpTo(env: Env, kernel: CString -> int, b: Both, fs: Fs, p: CString, j: nat): Both
    requires Progresses(fs, Spot(p, None)) && p in fs && j <= |fs[p]|
  {
    RegisterSteps(env, kernel, b, [Visit(p)] + WalkEntries(fs, p, j))
  }

  lemma NextEntry(env: Env, kernel: CString -> int, b: Both, fs: Fs, p: CString, j: nat)
    requires Progresses(fs, Spot(p, None)) && p in fs && j < |fs[p]|
    ensures UpTo(env, kernel, b, fs, p, j + 1)
         == RegisterSteps(env, kernel, UpTo(env, kernel, b, fs, p, j), WalkEntry(fs, p, fs[p][j], j))
  {
    var done, entry := [Visit(p)] + WalkEntries(fs, p, j), WalkEntry(fs, p, fs[p][j], j);
    assert [Visit(p)] + WalkEntries(fs, p, j + 1) == done + entry;
    RegisterConcat(env, kernel, b, done, entry);
  }

  lemma OneStep(env: Env, kernel: CString -> int, b: Both, step: Step)
    ensures RegisterSteps(env, kernel, b, [step]) == RegisterStep(env, kernel, b, step)
  {
    assert [step][..0] == [];
  }

  /** After registering a tree: the watched directories are the old ones and
      the visited ones that the kernel could watch, each once; the items are
      the old ones and the accepted files. */
  lemma {:induction false} RegisteredTree(
      env: Env, kernel: CString -> int, b: Both, steps: seq<Step>, i: nat, p: CString)
    requires DistinctNames(b.watches) && |b.db| > i
    requires forall op, k, q :: !env.fails(op, k, q)
    ensures var after := RegisterSteps(env, kernel, b, steps);
            && b.watches <= after.watches && DistinctNames(after.watches)
            && (Named(after.watches, p) <==> Named(b.watches, p) || (Visit(p) in steps && kernel(p) > 0))
            && |after.db| == |b.db|
            && (p in after.db[i] <==> p in b.db[i] || (env.Accepts(i, p) && exists t :: File(p, t) in steps))
    decreases |steps|
  {
    if steps != [] {
      var init, last := steps[..|steps| - 1], steps[|steps| - 1];
      RegisteredTree(env, kernel, b, init, i, p);
      var before := RegisterSteps(env, kernel, b, init);
      assert forall s :: s in steps <==> s in init || s == last;
      match last {
        case Visit(dir) => NamedAfterAdd(before.watches, dir, kernel(dir), p);
        case File(path, t) => InAfterRegister(env, before.db, path, i, p);
      }
    }
  }

  /** The watches that are added have the descriptors that the kernel gave. */
  lemma {:induction false} NewDescriptors(env: Env, kernel: CString -> int, b: Both, steps: seq<Step>)
    ensures var after := RegisterSteps(env, kernel, b, steps).watches;
            && |b.watches| <= |after|
            && forall k :: |b.watches| <= k < |after| ==> after[k].wd == kernel(after[k].name) > 0
  {
    if steps != [] {
      NewDescriptors(env, kernel, b, steps[..|steps| - 1]);
    }
  }

  lemma NamedAfterAdd(ws: seq<Watch>, dir: CString, wd: int, p: CString)
    requires DistinctNames(ws)
    ensures DistinctNames(Added(ws, dir, wd)) && ws <= Added(ws, dir, wd)
    ensures Named(Added(ws, dir, wd), p) <==> Named(ws, p) || (p == dir && wd > 0)
  {
    AddedKeepsDistinct(ws, dir, wd);
    var after := Added(ws, dir, wd);
    if Named(ws, p) {
      var k :| 0 <= k < |ws| && ws[k].name == p;
      assert after[k].name == p;
    }
    if Named(after, p) {
      var k :| 0 <= k < |after| && after[k].name == p;
      assert k < |ws| ==> ws[k].name == p;
    }
  }

  lemma InAfterRegister(env: Env, db: Db, path: CString, i: nat, p: CString)
    requires i < |db| && forall op, k, q :: !env.fails(op, k, q)
    ensures |Registered(env, db, path)| == |db|
    ensures p in Registered(env, db, path)[i] <==> p in db[i] || (p == path && env.Accepts(i, p))
  {
    assert !env.fails(InsertNow, i, path);
    if InAll(db, path) {
      assert Exists(db[i], path, StorageOf(path));
    } else if env.mime(path) {
      assert Registered(env, db, path)[i] == InsertOne(env, InsertNow, i, db[i], path);
    }
  }
}
