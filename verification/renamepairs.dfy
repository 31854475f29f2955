/** When the walk after a rename pairs every path of the new tree with the same
    relative path under the old root, in spite of paths that are cut or refused. */
module RenamePairs {
  import opened Base
  import opened FileTree
  import opened WalkEnds
  import opened RecursiveWalk
  import opened WalkResults
  import opened Rename
  import Reachable

  /** ms_strappend makes of the old path of the directory what belongs to the
      path that it makes of the new one; asked of an entry that the walk over the
      new tree goes on with. */
  ghost predicate PairsHere(fs: Fs, org: CString, chg: CString, v: CString, d: Dirent) {
    var to := StrAppend(v, d.name);
    !Hidden(d.name) && to.Ok? && (d.dtype.Dir? ==> to.value in fs) ==>
      StrAppend(Rebased(chg, org, v), d.name) == Ok(Rebased(chg, org, to.value))
  }

  ghost predicate AllPair(fs: Fs, org: CString, chg: CString) {
    forall v, d :: Called(fs, chg, v) && d in fs[v] ==> PairsHere(fs, org, chg, v, d)
  }

  /** The walk with its believed old paths is the one over the new tree, paired. */
  ghost predicate PairedFrom(fs: Fs, org: CString, chg: CString, p: CString) {
    && Progresses(fs, Spot(p, None)) && Progresses(fs, Spot(p, Some(Rebased(chg, org, p))))
    && RenameWalk(fs, Rebased(chg, org, p), p) == Paired(org, chg, Walk(fs, p))
  }

  // ----- The second path does not keep a walk from ending -----

  lemma BothProgress(fs: Fs, from: CString, p: CString)
    requires Progresses(fs, Spot(p, None))
    ensures Progresses(fs, Spot(p, Some(from)))
  {
    forall t, k: nat | Route(fs, Spot(p, Some(from)), t, k) ensures !Stalls(fs, t) {
      RouteOfOne(fs, Spot(p, Some(from)), t, k);
      StallOfOne(fs, t);
    }
  }

  lemma StallOfOne(fs: Fs, t: Spot)
    ensures Stalls(fs, t) ==> Stalls(fs, Spot(t.dir, None))
  {
    if Stalls(fs, t) {
      var d :| Enters(fs, t, d) && Into(t, d).dir == t.dir;
      assert Enters(fs, Spot(t.dir, None), d) && Into(Spot(t.dir, None), d).dir == t.dir;
    }
  }

  lemma {:induction false} RouteOfOne(fs: Fs, s: Spot, t: Spot, k: nat)
    requires Route(fs, s, t, k)
    ensures Route(fs, Spot(s.dir, None), Spot(t.dir, None), k)
    decreases k
  {
    if k > 0 {
      var d :| Enters(fs, s, d) && Route(fs, Into(s, d), t, k - 1);
      RouteOfOne(fs, Into(s, d), t, k - 1);
      assert Enters(fs, Spot(s.dir, None), d) && Into(Spot(s.dir, None), d) == Spot(Into(s, d).dir, None);
    }
  }

  // ----- What the walk after a rename meets, cut and refused paths included -----

  /** A chain of calls leads to `q`, which opens and is taken to have come from `x`. */
  ghost predicate CalledFrom(fs: Fs, org: CString, chg: CString, x: CString, q: CString) {
    q in fs && exists k: nat :: Route(fs, Spot(chg, Some(org)), Spot(q, Some(x)), k)
  }

  /** It visits exactly the directories that its calls lead to, each with the old path of the call. */
  lemma RenameVisitsCalled(fs: Fs, org: CString, chg: CString, x: CString, q: CString)
    requires Progresses(fs, Spot(chg, Some(org)))
    ensures Folder(x, q) in RenameWalk(fs, org, chg) <==> CalledFrom(fs, org, chg, x, q)
  {
    if Folder(x, q) in RenameWalk(fs, org, chg) {
      FolderIsCalled(fs, org, chg, x, q);
    }
    if CalledFrom(fs, org, chg, x, q) {
      var k: nat :| Route(fs, Spot(chg, Some(org)), Spot(q, Some(x)), k);
      CalledIsFolder(fs, org, chg, x, q, k);
    }
  }

  lemma {:induction false} FolderIsCalled(fs: Fs, org: CString, chg: CString, x: CString, q: CString)
    requires Progresses(fs, Spot(chg, Some(org))) && Folder(x, q) in RenameWalk(fs, org, chg)
    ensures CalledFrom(fs, org, chg, x, q)
    decreases Depth(chg), if chg in fs then |fs[chg]| + 1 else 0
  {
    if x == org && q == chg {
      assert Route(fs, Spot(chg, Some(org)), Spot(q, Some(x)), 0);
    } else {
      FolderInEntries(fs, org, chg, |fs[chg]|, x, q);
    }
  }

  lemma {:induction false} FolderInEntries(fs: Fs, org: CString, chg: CString, count: nat, x: CString, q: CString)
    requires Progresses(fs, Spot(chg, Some(org))) && chg in fs && count <= |fs[chg]|
    requires Folder(x, q) in RenameEntries(fs, org, chg, count)
    ensures CalledFrom(fs, org, chg, x, q)
    decreases Depth(chg), count
  {
    var s, d := Spot(chg, Some(org)), fs[chg][count - 1];
    if Folder(x, q) in RenameEntries(fs, org, chg, count - 1) {
      FolderInEntries(fs, org, chg, count - 1, x, q);
    } else {
      Deeper(fs, s, d);
      FolderIsCalled(fs, Into(s, d).from.value, Into(s, d).dir, x, q);
      var k: nat :| Route(fs, Into(s, d), Spot(q, Some(x)), k);
      assert Route(fs, s, Spot(q, Some(x)), k + 1);
    }
  }

  lemma {:induction false} CalledIsFolder(fs: Fs, org: CString, chg: CString, x: CString, q: CString, k: nat)
    requires Progresses(fs, Spot(chg, Some(org))) && q in fs && Route(fs, Spot(chg, Some(org)), Spot(q, Some(x)), k)
    ensures Folder(x, q) in RenameWalk(fs, org, chg)
    decreases k
  {
    if k > 0 {
      var s := Spot(chg, Some(org));
      var d :| Enters(fs, s, d) && Route(fs, Into(s, d), Spot(q, Some(x)), k - 1);
      Deeper(fs, s, d);
      CalledIsFolder(fs, Into(s, d).from.value, Into(s, d).dir, x, q, k - 1);
      var j :| 0 <= j < |fs[chg]| && fs[chg][j] == d;
      EntryAmongEntries(fs, org, chg, j, |fs[chg]|, Folder(x, q));
    } else {
      assert RenameWalk(fs, org, chg)[0] == Folder(org, chg);
    }
  }

  lemma {:induction false} EntryAmongEntries(fs: Fs, org: CString, chg: CString, j: nat, count: nat, pair: Pair)
    requires Progresses(fs, Spot(chg, Some(org))) && chg in fs && j < count <= |fs[chg]|
    requires pair in RenameEntry(fs, org, chg, fs[chg][j], j)
    ensures pair in RenameEntries(fs, org, chg, count)
    decreases count
  {
    if j < count - 1 {
      EntryAmongEntries(fs, org, chg, j, count - 1, pair);
    }
  }

  /** A visible entry, no directory, of a directory taken to have come from `x`,
      with the two paths that ms_strappend makes. */
  predicate IsPair(x: CString, dir: CString, d: Dirent, pair: Pair) {
    && !Hidden(d.name) && !d.dtype.Dir?
    && pair.Item? && StrAppend(x, d.name) == Ok(pair.from) && StrAppend(dir, d.name) == Ok(pair.to)
    && pair.dtype == d.dtype
  }

  ghost predicate PairedIn(fs: Fs, pairs: seq<Pair>, pair: Pair) {
    exists x, dir, d :: Folder(x, dir) in pairs && d in Reachable.Listing(fs, dir) && IsPair(x, dir, d, pair)
  }

  /** It meets exactly the other entries listed in these directories, both of
      whose paths are accepted. */
  lemma {:induction false} RenameMeets(fs: Fs, org: CString, chg: CString, pair: Pair)
    requires Progresses(fs, Spot(chg, Some(org))) && pair.Item?
    ensures pair in RenameWalk(fs, org, chg) <==> PairedIn(fs, RenameWalk(fs, org, chg), pair)
    decreases Depth(chg), if chg in fs then |fs[chg]| + 1 else 0
  {
    if chg in fs {
      var pairs, entries := RenameWalk(fs, org, chg), RenameEntries(fs, org, chg, |fs[chg]|);
      EntriesMeet(fs, org, chg, |fs[chg]|, pair);
      assert pairs == [Folder(org, chg)] + entries;
      OneMoreFolder(fs, org, chg, entries, pair);
      assert fs[chg][..|fs[chg]|] == fs[chg];
    }
  }

  lemma OneMoreFolder(fs: Fs, org: CString, chg: CString, entries: seq<Pair>, pair: Pair)
    requires chg in fs
    ensures PairedIn(fs, [Folder(org, chg)] + entries, pair) <==>
            PairedIn(fs, entries, pair) || exists d :: d in fs[chg] && IsPair(org, chg, d, pair)
  {
    PairedInConcat(fs, [Folder(org, chg)], entries, pair);
    assert PairedIn(fs, [Folder(org, chg)], pair) <==> exists d :: d in fs[chg] && IsPair(org, chg, d, pair) by {
      if exists d :: d in fs[chg] && IsPair(org, chg, d, pair) {
        assert Folder(org, chg) in [Folder(org, chg)];
      }
    }
  }

  lemma PairedInConcat(fs: Fs, a: seq<Pair>, b: seq<Pair>, pair: Pair)
    ensures PairedIn(fs, a + b, pair) <==> PairedIn(fs, a, pair) || PairedIn(fs, b, pair)
  {
    assert forall s :: s in a + b <==> s in a || s in b;
  }

  lemma {:induction false} EntriesMeet(fs: Fs, org: CString, chg: CString, count: nat, pair: Pair)
    requires Progresses(fs, Spot(chg, Some(org))) && chg in fs && count <= |fs[chg]| && pair.Item?
    ensures pair in RenameEntries(fs, org, chg, count)
       <==> (exists d :: d in fs[chg][..count] && IsPair(org, chg, d, pair))
            || PairedIn(fs, RenameEntries(fs, org, chg, count), pair)
    decreases Depth(chg), count
  {
    if count > 0 {
      var d := fs[chg][count - 1];
      EntriesMeet(fs, org, chg, count - 1, pair);
      EntryMeets(fs, org, chg, d, count - 1, pair);
      assert fs[chg][..count] == fs[chg][..count - 1] + [d];
      PairedInConcat(fs, RenameEntries(fs, org, chg, count - 1), RenameEntry(fs, org, chg, d, count - 1), pair);
    }
  }

  lemma {:induction false} EntryMeets(fs: Fs, org: CString, chg: CString, d: Dirent, rank: nat, pair: Pair)
    requires Progresses(fs, Spot(chg, Some(org))) && chg in fs && d in fs[chg] && pair.Item?
    ensures pair in RenameEntry(fs, org, chg, d, rank)
       <==> IsPair(org, chg, d, pair) || PairedIn(fs, RenameEntry(fs, org, chg, d, rank), pair)
    decreases Depth(chg), rank
  {
    var from, to := StrAppend(org, d.name), StrAppend(chg, d.name);
    if !Hidden(d.name) && from.Ok? && to.Ok? && d.dtype.Dir? {
      Deeper(fs, Spot(chg, Some(org)), d);
      RenameMeets(fs, from.value, to.value, pair);
    }
  }

  // ----- If all entries pair, so does the walk -----

  lemma {:induction false} CalledNext(fs: Fs, p: CString, q: CString, k: nat, d: Dirent)
    requires Route(fs, Spot(p, None), Spot(q, None), k) && Enters(fs, Spot(q, None), d)
    ensures Route(fs, Spot(p, None), Into(Spot(q, None), d), k + 1)
    decreases k
  {
    var s := Spot(p, None);
    if k == 0 {
      assert Route(fs, Into(s, d), Into(s, d), 0);
    } else {
      var e :| Enters(fs, s, e) && Route(fs, Into(s, e), Spot(q, None), k - 1);
      CalledNext(fs, Into(s, e).dir, q, k - 1, d);
    }
  }

  lemma {:induction false} WalkPairs(fs: Fs, org: CString, chg: CString, p: CString)
    requires Progresses(fs, Spot(p, None)) && AllPair(fs, org, chg) && (p in fs ==> Called(fs, chg, p))
    ensures PairedFrom(fs, org, chg, p)
    decreases Depth(p), if p in fs then |fs[p]| + 1 else 0
  {
    BothProgress(fs, Rebased(chg, org, p), p);
    if p in fs {
      EntriesPair(fs, org, chg, p, |fs[p]|);
      PairedConcat(org, chg, [Visit(p)], WalkEntries(fs, p, |fs[p]|));
      PairedSingle(org, chg, Visit(p));
    }
  }

  lemma {:induction false} EntriesPair(fs: Fs, org: CString, chg: CString, p: CString, count: nat)
    requires Progresses(fs, Spot(p, None)) && AllPair(fs, org, chg) && Called(fs, chg, p) && count <= |fs[p]|
    ensures Progresses(fs, Spot(p, Some(Rebased(chg, org, p))))
    ensures RenameEntries(fs, Rebased(chg, org, p), p, count) == Paired(org, chg, WalkEntries(fs, p, count))
    decreases Depth(p), count
  {
    BothProgress(fs, Rebased(chg, org, p), p);
    if count > 0 {
      EntriesPair(fs, org, chg, p, count - 1);
      EntryPairs(fs, org, chg, p, fs[p][count - 1], count - 1);
      PairedConcat(org, chg, WalkEntries(fs, p, count - 1), WalkEntry(fs, p, fs[p][count - 1], count - 1));
    }
  }

  lemma {:induction false} EntryPairs(fs: Fs, org: CString, chg: CString, p: CString, d: Dirent, rank: nat)
    requires Progresses(fs, Spot(p, None)) && AllPair(fs, org, chg) && Called(fs, chg, p) && d in fs[p]
    ensures Progresses(fs, Spot(p, Some(Rebased(chg, org, p))))
    ensures RenameEntry(fs, Rebased(chg, org, p), p, d, rank) == Paired(org, chg, WalkEntry(fs, p, d, rank))
    decreases Depth(p), rank
  {
    BothProgress(fs, Rebased(chg, org, p), p);
    assert PairsHere(fs, org, chg, p, d);
    var to := StrAppend(p, d.name);
    if !Hidden(d.name) && to.Ok? {
      if d.dtype.Dir? {
        Deeper(fs, Spot(p, None), d);
        var k: nat :| Route(fs, Spot(chg, None), Spot(p, None), k);
        CalledNext(fs, chg, p, k, d);
        WalkPairs(fs, org, chg, to.value);
      } else {
        PairedSingle(org, chg, File(to.value, d.dtype));
      }
    }
  }

  // ----- If the walk pairs, so do all entries -----

  lemma {:induction false} PairedLength(org: CString, chg: CString, steps: seq<Step>)
    ensures |Paired(org, chg, steps)| == |steps|
  {
    if steps != [] {
      PairedLength(org, chg, steps[..|steps| - 1]);
    }
  }

  /** Refused old paths can only make the walk shorter. */
  lemma {:induction false} NotLonger(fs: Fs, from: CString, p: CString)
    requires Progresses(fs, Spot(p, None))
    ensures Progresses(fs, Spot(p, Some(from))) && |RenameWalk(fs, from, p)| <= |Walk(fs, p)|
    decreases Depth(p), if p in fs then |fs[p]| + 1 else 0
  {
    BothProgress(fs, from, p);
    if p in fs {
      EntriesNotLonger(fs, from, p, |fs[p]|);
    }
  }

  lemma {:induction false} EntriesNotLonger(fs: Fs, from: CString, p: CString, count: nat)
    requires Progresses(fs, Spot(p, None)) && p in fs && count <= |fs[p]|
    ensures Progresses(fs, Spot(p, Some(from)))
    ensures |RenameEntries(fs, from, p, count)| <= |WalkEntries(fs, p, count)|
    decreases Depth(p), count
  {
    BothProgress(fs, from, p);
    if count > 0 {
      EntriesNotLonger(fs, from, p, count - 1);
      EntryNotLonger(fs, from, p, fs[p][count - 1], count - 1);
    }
  }

  lemma {:induction false} EntryNotLonger(fs: Fs, from: CString, p: CString, d: Dirent, rank: nat)
    requires Progresses(fs, Spot(p, None)) && p in fs && d in fs[p]
    ensures Progresses(fs, Spot(p, Some(from)))
    ensures |RenameEntry(fs, from, p, d, rank)| <= |WalkEntry(fs, p, d, rank)|
    decreases Depth(p), rank
  {
    BothProgress(fs, from, p);
    var was, to := StrAppend(from, d.name), StrAppend(p, d.name);
    if !Hidden(d.name) && to.Ok? && was.Ok? && d.dtype.Dir? {
      Deeper(fs, Spot(p, None), d);
      NotLonger(fs, was.value, to.value);
    }
  }

  /** So if the entries of a directory pair all together, each of them does. */
  lemma {:induction false} EachPairs(
      fs: Fs, org: CString, chg: CString, from: CString, p: CString, count: nat, j: nat)
    requires Progresses(fs, Spot(p, None)) && Progresses(fs, Spot(p, Some(from))) && p in fs && j < count <= |fs[p]|
    requires RenameEntries(fs, from, p, count) == Paired(org, chg, WalkEntries(fs, p, count))
    ensures RenameEntry(fs, from, p, fs[p][j], j) == Paired(org, chg, WalkEntry(fs, p, fs[p][j], j))
    decreases count
  {
    var d := fs[p][count - 1];
    var steps, step := WalkEntries(fs, p, count - 1), WalkEntry(fs, p, d, count - 1);
    PairedConcat(org, chg, steps, step);
    PairedLength(org, chg, steps);
    PairedLength(org, chg, step);
    EntriesNotLonger(fs, from, p, count - 1);
    EntryNotLonger(fs, from, p, d, count - 1);
    SplitEqual(RenameEntries(fs, from, p, count - 1), RenameEntry(fs, from, p, d, count - 1),
               Paired(org, chg, steps), Paired(org, chg, step));
    if j < count - 1 {
      EachPairs(fs, org, chg, from, p, count - 1, j);
    }
  }

  lemma SplitEqual<T>(a: seq<T>, b: seq<T>, c: seq<T>, d: seq<T>)
    requires a + b == c + d && |a| <= |c| && |b| <= |d|
    ensures a == c && b == d
  {
    assert |a + b| == |a| + |b| && |c + d| == |c| + |d|;
    assert a == (a + b)[..|a|] && c == (c + d)[..|a|];
    assert b == (a + b)[|a|..] && d == (c + d)[|a|..];
  }

  lemma EntryOfPairing(fs: Fs, org: CString, chg: CString, p: CString, d: Dirent)
    requires p in fs && d in fs[p] && PairedFrom(fs, org, chg, p)
    ensures PairsHere(fs, org, chg, p, d)
    ensures Enters(fs, Spot(p, None), d) ==>
              var q := Into(Spot(p, None), d).dir;
              q in fs ==> PairedFrom(fs, org, chg, q)
  {
    var from, to := Rebased(chg, org, p), StrAppend(p, d.name);
    BothProgress(fs, from, p);
    PairedConcat(org, chg, [Visit(p)], WalkEntries(fs, p, |fs[p]|));
    PairedSingle(org, chg, Visit(p));
    SplitFirst(Folder(from, p), RenameEntries(fs, from, p, |fs[p]|), PairOf(org, chg, Visit(p)),
               Paired(org, chg, WalkEntries(fs, p, |fs[p]|)));
    var j: nat :| j < |fs[p]| && fs[p][j] == d;
    EachPairs(fs, org, chg, from, p, |fs[p]|, j);
    if !Hidden(d.name) && to.Ok? {
      if d.dtype.Dir? {
        Deeper(fs, Spot(p, None), d);
        if to.value in fs {
          SubtreeOfPairing(fs, org, chg, from, p, d, j);
        }
      } else {
        PairedSingle(org, chg, File(to.value, d.dtype));
      }
    }
  }

  lemma SplitFirst<T>(x: T, a: seq<T>, y: T, b: seq<T>)
    requires [x] + a == [y] + b
    ensures x == y && a == b
  {
    assert ([x] + a)[0] == x && ([y] + b)[0] == y;
    assert a == ([x] + a)[1..] && b == ([y] + b)[1..];
  }

  lemma SubtreeOfPairing(fs: Fs, org: CString, chg: CString, from: CString, p: CString, d: Dirent, rank: nat)
    requires Progresses(fs, Spot(p, None)) && Progresses(fs, Spot(p, Some(from))) && Enters(fs, Spot(p, None), d)
    requires Into(Spot(p, None), d).dir in fs
    requires RenameEntry(fs, from, p, d, rank) == Paired(org, chg, WalkEntry(fs, p, d, rank))
    ensures var q := Into(Spot(p, None), d).dir;
            && StrAppend(from, d.name) == Ok(Rebased(chg, org, q))
            && PairedFrom(fs, org, chg, q)
  {
    Deeper(fs, Spot(p, None), d);
    var q, was := Into(Spot(p, None), d).dir, StrAppend(from, d.name);
    FirstPair(org, chg, q, WalkEntries(fs, q, |fs[q]|));
    assert Walk(fs, q) == [Visit(q)] + WalkEntries(fs, q, |fs[q]|);
    if was.Ok? {
      BothProgress(fs, was.value, q);
      assert RenameWalk(fs, was.value, q)[0] == Folder(was.value, q);
    }
  }

  lemma FirstPair(org: CString, chg: CString, q: CString, steps: seq<Step>)
    ensures |Paired(org, chg, [Visit(q)] + steps)| > 0
    ensures Paired(org, chg, [Visit(q)] + steps)[0] == Folder(Rebased(chg, org, q), q)
  {
    PairedConcat(org, chg, [Visit(q)], steps);
    PairedSingle(org, chg, Visit(q));
  }

  lemma PairingGoesDown(fs: Fs, org: CString, chg: CString, p: CString, d: Dirent, q: CString)
    requires PairedFrom(fs, org, chg, p)
    requires Enters(fs, Spot(p, None), d) && Into(Spot(p, None), d).dir == q && q in fs
    ensures PairedFrom(fs, org, chg, q)
  {
    EntryOfPairing(fs, org, chg, p, d);
  }

  lemma FirstCall(fs: Fs, p: CString, v: CString, k: nat) returns (d: Dirent, q: CString)
    requires Route(fs, Spot(p, None), Spot(v, None), k) && k > 0 && v in fs
    ensures Enters(fs, Spot(p, None), d) && Into(Spot(p, None), d).dir == q && q in fs
    ensures Route(fs, Spot(q, None), Spot(v, None), k - 1)
  {
    d :| Enters(fs, Spot(p, None), d) && Route(fs, Into(Spot(p, None), d), Spot(v, None), k - 1);
    q := Into(Spot(p, None), d).dir;
  }

  /** The first call of the chain, and what is left of it. */
  lemma OneCallDown(fs: Fs, org: CString, chg: CString, p: CString, v: CString, k: nat) returns (q: CString)
    requires PairedFrom(fs, org, chg, p)
    requires Route(fs, Spot(p, None), Spot(v, None), k) && k > 0 && v in fs
    ensures Route(fs, Spot(q, None), Spot(v, None), k - 1)
    ensures PairedFrom(fs, org, chg, q)
  {
    var d;
    d, q := FirstCall(fs, p, v, k);
    PairingGoesDown(fs, org, chg, p, d, q);
  }

  lemma {:induction false} RoutePairs(
      fs: Fs, org: CString, chg: CString, p: CString, v: CString, d: Dirent, k: nat)
    requires PairedFrom(fs, org, chg, p)
    requires Route(fs, Spot(p, None), Spot(v, None), k) && v in fs && d in fs[v]
    ensures PairsHere(fs, org, chg, v, d)
    decreases k
  {
    if k == 0 {
      EntryOfPairing(fs, org, chg, v, d);
    } else {
      var q := OneCallDown(fs, org, chg, p, v, k);
      RoutePairs(fs, org, chg, q, v, d, k - 1);
    }
  }

  /** If the walk over the new tree ends, so does the one with the old paths; it
      pairs each path met with the same relative path under the old root if and
      only if ms_strappend does so at each entry that the walk goes on with. */
  lemma RenameWalkPairsIff(fs: Fs, org: CString, chg: CString)
    requires Progresses(fs, Spot(chg, None))
    ensures Progresses(fs, Spot(chg, Some(org)))
    ensures RenameWalk(fs, org, chg) == Paired(org, chg, Walk(fs, chg)) <==> AllPair(fs, org, chg)
  {
    assert Rebased(chg, org, chg) == org;
    BothProgress(fs, org, chg);
    if AllPair(fs, org, chg) {
      assert Route(fs, Spot(chg, None), Spot(chg, None), 0);
      WalkPairs(fs, org, chg, chg);
    }
    if PairedFrom(fs, org, chg, chg) {
      forall v, d | Called(fs, chg, v) && d in fs[v] ensures PairsHere(fs, org, chg, v, d) {
        var k: nat :| Route(fs, Spot(chg, None), Spot(v, None), k);
        RoutePairs(fs, org, chg, chg, v, d, k);
      }
    }
  }

  // ----- What the walk meets is in the new tree -----

  lemma StepUnder(chg: CString, v: CString, n: CString)
    requires |chg| <= MS_FILE_PATH_LEN_MAX - 2 && Under(chg, v) && StrAppend(v, n).Ok?
    ensures Under(chg, StrAppend(v, n).value)
  {
    var q := StrAppend(v, n).value;
    UnderIsPrefix(chg, v);
    assert v <= Join(v, n) && |q| >= |chg|;
    assert forall i :: 0 <= i < |chg| ==> q[i] == Join(v, n)[i] == v[i] == chg[i];
    if |q| > |chg| {
      assert q[|chg|] == Join(v, n)[|chg|] == (v + "/")[|chg|] == (chg + "/")[|chg|] == '/';
    }
  }

  lemma {:induction false} RouteUnder(fs: Fs, chg: CString, s: Spot, t: Spot, k: nat)
    requires |chg| <= MS_FILE_PATH_LEN_MAX - 2 && Under(chg, s.dir) && Route(fs, s, t, k)
    ensures Under(chg, t.dir)
    decreases k
  {
    if k > 0 {
      var d :| Enters(fs, s, d) && Route(fs, Into(s, d), t, k - 1);
      StepUnder(chg, s.dir, d.name);
      RouteUnder(fs, chg, Into(s, d), t, k - 1);
    }
  }

  lemma CalledUnder(fs: Fs, chg: CString, q: CString)
    requires |chg| <= MS_FILE_PATH_LEN_MAX - 2 && Called(fs, chg, q)
    ensures Under(chg, q)
  {
    var k: nat :| Route(fs, Spot(chg, None), Spot(q, None), k);
    RouteUnder(fs, chg, Spot(chg, None), Spot(q, None), k);
  }

  lemma WalkInside(fs: Fs, chg: CString)
    requires Progresses(fs, Spot(chg, None)) && |chg| <= MS_FILE_PATH_LEN_MAX - 2
    ensures Inside(chg, Walk(fs, chg))
  {
    var steps := Walk(fs, chg);
    forall k | 0 <= k < |steps| ensures Under(chg, PathIn(steps[k])) {
      assert steps[k] in steps;
      match steps[k] {
        case Visit(q) =>
          WalkVisitsCalled(fs, chg, q);
          CalledUnder(fs, chg, q);
        case File(f, t) =>
          WalkMeets(fs, chg, f, t);
          MetUnder(fs, chg, f, t);
      }
    }
  }

  lemma MetUnder(fs: Fs, chg: CString, f: CString, t: DType)
    requires |chg| <= MS_FILE_PATH_LEN_MAX - 2 && MetIn(fs, chg, f, t)
    ensures Under(chg, f)
  {
    var dir, d :| Called(fs, chg, dir) && d in Reachable.Listing(fs, dir) && IsOther(dir, d, f, t);
    CalledUnder(fs, chg, dir);
    StepUnder(chg, dir, d.name);
  }

  // ----- Trees within the limits -----

  /** No path that the walk meets is cut, and none that it had before is cut or refused. */
  ghost predicate TreeFits(fs: Fs, org: CString, chg: CString) {
    forall v, d :: Called(fs, chg, v) && d in fs[v] && !Hidden(d.name) && StrAppend(v, d.name).Ok? ==>
      && |Join(v, d.name)| <= MS_FILE_PATH_LEN_MAX - 2
      && |Join(v, d.name)| + |org| - |chg| <= MS_FILE_PATH_LEN_MAX - 2
  }

  lemma RebasedJoin(old_root: CString, new_root: CString, p: CString, n: CString)
    requires old_root <= p
    ensures Rebased(old_root, new_root, Join(p, n)) == Join(Rebased(old_root, new_root, p), n)
  {
    assert Join(p, n)[|old_root|..] == p[|old_root|..] + "/" + n;
  }

  lemma TreeFitsPairs(fs: Fs, org: CString, chg: CString)
    requires TreeFits(fs, org, chg) && |chg| <= MS_FILE_PATH_LEN_MAX - 2
    ensures Progresses(fs, Spot(chg, None)) && AllPair(fs, org, chg)
  {
    forall t, k: nat | Route(fs, Spot(chg, None), t, k) ensures !Stalls(fs, t) {
      RouteOfOne(fs, Spot(chg, None), t, k);
      FitsDoesNotStall(fs, org, chg, t);
    }
    forall v, d | Called(fs, chg, v) && d in fs[v] ensures PairsHere(fs, org, chg, v, d) {
      CalledUnder(fs, chg, v);
      UnderIsPrefix(chg, v);
      RebasedJoin(chg, org, v, d.name);
    }
  }

  lemma FitsDoesNotStall(fs: Fs, org: CString, chg: CString, t: Spot)
    requires TreeFits(fs, org, chg) && exists k: nat :: Route(fs, Spot(chg, None), Spot(t.dir, None), k)
    ensures !Stalls(fs, t)
  {
    forall d | Enters(fs, t, d) ensures Into(t, d).dir != t.dir {
      assert Called(fs, chg, t.dir);
      assert |Join(t.dir, d.name)| <= MS_FILE_PATH_LEN_MAX - 2;
    }
  }
}
