/** What the recursive walk meets, in terms of the tree alone: the directories
    that the stackless traversal reaches, and the entries listed in them. */
module WalkResults {
  import opened Base
  import opened FileTree
  import opened MediaDb
  import opened WalkEnds
  import opened WatchList
  import opened RecursiveWalk
  import Reachable

  predicate IsOther(dir: CString, d: Dirent, f: CString, t: DType) {
    !Hidden(d.name) && !d.dtype.Dir? && StrAppend(dir, d.name) == Ok(f) && t == d.dtype
  }

  /** `f` is listed, not hidden, as an entry of kind `t` in one of the visited directories. */
  ghost predicate ListedIn(fs: Fs, steps: seq<Step>, f: CString, t: DType) {
    exists dir, d :: Visit(dir) in steps && d in Reachable.Listing(fs, dir) && IsOther(dir, d, f, t)
  }

  /** The walk meets exactly the non-directories listed in the directories it visits. */
  lemma {:induction false} WalkFiles(fs: Fs, p: CString, f: CString, t: DType)
    requires Progresses(fs, Spot(p, None))
    ensures File(f, t) in Walk(fs, p) <==> ListedIn(fs, Walk(fs, p), f, t)
    decreases Depth(p), if p in fs then |fs[p]| + 1 else 0
  {
    if p in fs {
      EntriesFiles(fs, p, |fs[p]|, f, t);
      var entries := WalkEntries(fs, p, |fs[p]|);
      if exists d :: d in fs[p] && IsOther(p, d, f, t) {
        assert ListedIn(fs, Walk(fs, p), f, t) by {
          assert Walk(fs, p)[0] == Visit(p);
        }
      }
      if ListedIn(fs, entries, f, t) {
        var dir, d :| Visit(dir) in entries && d in Reachable.Listing(fs, dir) && IsOther(dir, d, f, t);
        assert Visit(dir) in Walk(fs, p);
      }
      if ListedIn(fs, Walk(fs, p), f, t) {
        var dir, d :| Visit(dir) in Walk(fs, p) && d in Reachable.Listing(fs, dir) && IsOther(dir, d, f, t);
        assert dir == p || Visit(dir) in entries;
      }
    }
  }

  lemma {:induction false} EntriesFiles(fs: Fs, p: CString, count: nat, f: CString, t: DType)
    requires Progresses(fs, Spot(p, None)) && p in fs && count <= |fs[p]|
    ensures File(f, t) in WalkEntries(fs, p, count)
       <==> (exists d :: d in fs[p][..count] && IsOther(p, d, f, t)) || ListedIn(fs, WalkEntries(fs, p, count), f, t)
    decreases Depth(p), count
  {
    if count > 0 {
      var d := fs[p][count - 1];
      EntriesFiles(fs, p, count - 1, f, t);
      EntryFiles(fs, p, d, count - 1, f, t);
      assert fs[p][..count] == fs[p][..count - 1] + [d];
      ListedInConcat(fs, WalkEntries(fs, p, count - 1), WalkEntry(fs, p, d, count - 1), f, t);
    }
  }

  lemma ListedInConcat(fs: Fs, a: seq<Step>, b: seq<Step>, f: CString, t: DType)
    ensures ListedIn(fs, a + b, f, t) <==> ListedIn(fs, a, f, t) || ListedIn(fs, b, f, t)
  {
    assert forall s :: s in a + b <==> s in a || s in b;
  }

  lemma {:induction false} EntryFiles(fs: Fs, p: CString, d: Dirent, rank: nat, f: CString, t: DType)
    requires Progresses(fs, Spot(p, None)) && p in fs && d in fs[p]
    ensures File(f, t) in WalkEntry(fs, p, d, rank)
       <==> IsOther(p, d, f, t) || ListedIn(fs, WalkEntry(fs, p, d, rank), f, t)
    decreases Depth(p), rank
  {
    var q := StrAppend(p, d.name);
    if !Hidden(d.name) && q.Ok? && d.dtype.Dir? {
      Deeper(fs, Spot(p, None), d);
      WalkFiles(fs, q.value, f, t);
    }
  }

  lemma {:induction false} VisitsMembers(steps: seq<Step>, q: CString)
    ensures q in Visits(steps) <==> Visit(q) in steps
  {
    if steps != [] {
      VisitsMembers(steps[1..], q);
      assert Visit(q) in steps <==> Visit(q) == steps[0] || Visit(q) in steps[1..];
    }
  }

  // ----- For every walk that ends: the directories its calls lead to -----

  /** A chain of calls leads to `q`, and it can be opened. */
  ghost predicate Called(fs: Fs, p: CString, q: CString) {
    q in fs && exists k: nat :: Route(fs, Spot(p, None), Spot(q, None), k)
  }

  /** The walk visits exactly the directories that its calls lead to, cut paths included. */
  lemma WalkVisitsCalled(fs: Fs, p: CString, q: CString)
    requires Progresses(fs, Spot(p, None))
    ensures Visit(q) in Walk(fs, p) <==> Called(fs, p, q)
  {
    if Visit(q) in Walk(fs, p) {
      VisitIsCalled(fs, p, q);
    }
    if Called(fs, p, q) {
      var k: nat :| Route(fs, Spot(p, None), Spot(q, None), k);
      CalledIsVisited(fs, p, q, k);
    }
  }

  lemma {:induction false} VisitIsCalled(fs: Fs, p: CString, q: CString)
    requires Progresses(fs, Spot(p, None)) && Visit(q) in Walk(fs, p)
    ensures Called(fs, p, q)
    decreases Depth(p), if p in fs then |fs[p]| + 1 else 0
  {
    if q == p {
      assert Route(fs, Spot(p, None), Spot(q, None), 0);
    } else {
      EntriesVisitCalled(fs, p, |fs[p]|, q);
    }
  }

  lemma {:induction false} EntriesVisitCalled(fs: Fs, p: CString, count: nat, q: CString)
    requires Progresses(fs, Spot(p, None)) && p in fs && count <= |fs[p]| && Visit(q) in WalkEntries(fs, p, count)
    ensures Called(fs, p, q)
    decreases Depth(p), count
  {
    var s, d := Spot(p, None), fs[p][count - 1];
    if Visit(q) in WalkEntries(fs, p, count - 1) {
      EntriesVisitCalled(fs, p, count - 1, q);
    } else {
      Deeper(fs, s, d);
      VisitIsCalled(fs, Into(s, d).dir, q);
      var k: nat :| Route(fs, Into(s, d), Spot(q, None), k);
      assert Route(fs, s, Spot(q, None), k + 1);
    }
  }

  lemma {:induction false} CalledIsVisited(fs: Fs, p: CString, q: CString, k: nat)
    requires Progresses(fs, Spot(p, None)) && q in fs && Route(fs, Spot(p, None), Spot(q, None), k)
    ensures Visit(q) in Walk(fs, p)
    decreases k
  {
    if k > 0 {
      var s := Spot(p, None);
      var d :| Enters(fs, s, d) && Route(fs, Into(s, d), Spot(q, None), k - 1);
      Deeper(fs, s, d);
      CalledIsVisited(fs, Into(s, d).dir, q, k - 1);
      var j :| 0 <= j < |fs[p]| && fs[p][j] == d;
      EntryInEntries(fs, p, j, |fs[p]|, Visit(q));
    } else {
      assert Walk(fs, p)[0] == Visit(p);
    }
  }

  lemma {:induction false} EntryInEntries(fs: Fs, p: CString, j: nat, count: nat, step: Step)
    requires Progresses(fs, Spot(p, None)) && p in fs && j < count <= |fs[p]|
    requires step in WalkEntry(fs, p, fs[p][j], j)
    ensures step in WalkEntries(fs, p, count)
    decreases count
  {
    if j < count - 1 {
      EntryInEntries(fs, p, j, count - 1, step);
    }
  }

  /** A listed entry, not hidden and not a directory, of one of these directories. */
  ghost predicate MetIn(fs: Fs, root: CString, f: CString, t: DType) {
    exists dir, d :: Called(fs, root, dir) && d in Reachable.Listing(fs, dir) && IsOther(dir, d, f, t)
  }

  lemma WalkMeets(fs: Fs, root: CString, f: CString, t: DType)
    requires Progresses(fs, Spot(root, None))
    ensures File(f, t) in Walk(fs, root) <==> MetIn(fs, root, f, t)
  {
    WalkFiles(fs, root, f, t);
    forall dir ensures Visit(dir) in Walk(fs, root) <==> Called(fs, root, dir) {
      WalkVisitsCalled(fs, root, dir);
    }
  }

  /** Registering a tree, end to end: the watches added are those of the
      directories come to that the kernel could watch, and the items added are
      the accepted ones among the visible entries met there. */
  lemma RegisteredWholeTree(env: Env, kernel: CString -> int, b: Both, fs: Fs, root: CString, i: nat, p: CString)
    requires Progresses(fs, Spot(root, None))
    requires DistinctNames(b.watches) && i < |b.db| && NoFailures(env)
    ensures var after := RegisterSteps(env, kernel, b, Walk(fs, root));
            && b.watches <= after.watches && DistinctNames(after.watches)
            && (Named(after.watches, p) <==> Named(b.watches, p) || (Called(fs, root, p) && kernel(p) > 0))
            && |after.db| == |b.db|
            && (p in after.db[i] <==>
                  p in b.db[i] || (env.Accepts(i, p) && exists t :: MetIn(fs, root, p, t)))
  {
    RegisteredTree(env, kernel, b, Walk(fs, root), i, p);
    WalkVisitsCalled(fs, root, p);
    forall t ensures File(p, t) in Walk(fs, root) <==> MetIn(fs, root, p, t) {
      WalkMeets(fs, root, p, t);
    }
  }

  // ----- Without cut paths: the tree alone -----

  /** The walk then visits exactly the directories reachable from its root. */
  lemma WalkVisitsReachable(fs: Fs, p: CString, q: CString)
    requires OnlyDirsOpen(fs) && p in fs && |p| <= MS_FILE_PATH_LEN_MAX
    requires Uncut(fs, Preorder(fs, p))
    ensures Progresses(fs, Spot(p, None))
    ensures Visit(q) in Walk(fs, p) <==> Reachable.Reachable(fs, p, q)
  {
    WalkVisitsPreorder(fs, p);
    VisitsMembers(Walk(fs, p), q);
    PreorderIsReachable(fs, p, q);
  }

  lemma PreorderIsReachable(fs: Fs, p: CString, q: CString)
    requires |p| <= MS_FILE_PATH_LEN_MAX
    ensures q in Preorder(fs, p) <==> Reachable.Reachable(fs, p, q)
  {
    if q in Preorder(fs, p) {
      Reachable.PreorderSound(fs, p, q);
    }
    if Reachable.Reachable(fs, p, q) {
      var names :| Reachable.IsDescent(fs, p, names) && Reachable.Target(p, names) == q;
      Reachable.PreorderComplete(fs, p, names);
    }
  }

  /** The walk ends and visits exactly the directories reachable from its root. */
  ghost predicate VisitsReachable(fs: Fs, p: CString) {
    Progresses(fs, Spot(p, None)) && forall q :: Visit(q) in Walk(fs, p) <==> Reachable.Reachable(fs, p, q)
  }

  /** No directory of the tree has a child whose path is cut. */
  ghost predicate UncutTree(fs: Fs, p: CString)
    requires |p| <= MS_FILE_PATH_LEN_MAX
  {
    Uncut(fs, Preorder(fs, p))
  }

  /** The walk ends and visits exactly the directories reachable from its root
      if and only if no child path is cut on the way. */
  lemma WalkVisitsReachableIff(fs: Fs, p: CString)
    requires OnlyDirsOpen(fs) && p in fs && |p| <= MS_FILE_PATH_LEN_MAX
    ensures VisitsReachable(fs, p) <==> UncutTree(fs, p)
  {
    if Uncut(fs, Preorder(fs, p)) {
      UncutEnds(fs, p);
      forall q ensures Visit(q) in Walk(fs, p) <==> Reachable.Reachable(fs, p, q) {
        WalkVisitsReachable(fs, p, q);
      }
    } else if Progresses(fs, Spot(p, None)) {
      var v, d :| v in Preorder(fs, p) && d in Reachable.Listing(fs, v) && IsChild(fs, v, d)
                  && |Join(v, d.name)| > MS_FILE_PATH_LEN_MAX - 2;
      var q := Join(v, d.name);
      LongChildVisited(fs, p, v, d);
      PreorderIsReachable(fs, p, q);
      VisitsMembers(Walk(fs, p), q);
      if q in Visits(Walk(fs, p)) {
        WalkVisitsShort(fs, p, q);
      }
    }
  }
}
