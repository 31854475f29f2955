/** A directory that is renamed shows up as two events, one where it leaves and
    one where it arrives. What the event loop makes of such a pair. */
module DirectoryEvents {
  import opened Base
  import opened FileTree
  import opened MediaDb
  import opened WatchList
  import opened CreateList
  import opened RecursiveWalk
  import opened WalkResults
  import opened Rename
  import opened RenamePairs
  import opened RenamedTree
  import opened InotifyEvents
  import opened WalkEnds

  // ----- Between the two events -----

  /** The name of the watch that a descriptor is taken for. */
  function NameFor(ws: seq<Watch>, wd: int): CString
    requires ws != []
  {
    ws[Resolve(ws, wd)].name
  }

  /** The event neither moves a directory nor changes the watch that `wd` is taken for. */
  ghost predicate Quiet(env: Env, v: View, n: Notice, wd: int)
    requires StepEnds(v, n)
  {
    var after := LoopStep(env, v, n).watches;
    && v.watches != [] && after != [] && NameFor(after, wd) == NameFor(v.watches, wd)
    && !(Has(n.event.mask, IN_ISDIR) && Subject(v.watches, n.event).Some?
         && (KindOf(n.event.mask).MovedFrom? || KindOf(n.event.mask).MovedTo?))
  }

  ghost predicate AllQuiet(env: Env, v: View, notices: seq<Notice>, wd: int)
    requires RunEnds(env, v, notices)
  {
    notices == [] ||
    var init, last := notices[..|notices| - 1], notices[|notices| - 1];
    AllQuiet(env, v, init, wd) && Quiet(env, LoopRun(env, v, init), last, wd)
  }

  /** A file closed after writing makes the loop forget the directory that left. */
  predicate Forgets(v: View, n: Notice) {
    && !Has(n.event.mask, IN_ISDIR)
    && Subject(v.watches, n.event).Some?
    && KindOf(n.event.mask).CloseWrite?
    && (LastIndex(v.created, Created(n.event.wd, n.event.name)) >= 0 || n.refreshed)
  }

  ghost predicate NoneForgets(env: Env, v: View, notices: seq<Notice>)
    requires RunEnds(env, v, notices)
  {
    notices == [] ||
    var init, last := notices[..|notices| - 1], notices[|notices| - 1];
    NoneForgets(env, v, init) && !Forgets(LoopRun(env, v, init), last)
  }

  /** Events on files are quiet. */
  lemma FileIsQuiet(env: Env, v: View, n: Notice, wd: int)
    requires v.watches != [] && !Has(n.event.mask, IN_ISDIR)
    ensures StepEnds(v, n) && Quiet(env, v, n, wd)
  {
  }

  /** So is every run of them. */
  lemma {:induction false} FilesAreQuiet(env: Env, v: View, notices: seq<Notice>, wd: int)
    requires v.watches != [] && forall k :: 0 <= k < |notices| ==> !Has(notices[k].event.mask, IN_ISDIR)
    ensures RunEnds(env, v, notices) && LoopRun(env, v, notices).watches == v.watches
    ensures AllQuiet(env, v, notices, wd)
  {
    if notices != [] {
      var init, last := notices[..|notices| - 1], notices[|notices| - 1];
      FilesAreQuiet(env, v, init, wd);
      FileIsQuiet(env, LoopRun(env, v, init), last, wd);
    }
  }

  /** The creation of a directory is quiet if the descriptor is known. */
  lemma CreationIsQuiet(env: Env, v: View, n: Notice, wd: int, k: nat)
    requires Has(n.event.mask, IN_ISDIR) && KindOf(n.event.mask).Creation? && StepEnds(v, n)
    requires k < |v.watches| && v.watches[k].wd == wd
    ensures Quiet(env, v, n, wd)
  {
    var path := Subject(v.watches, n.event);
    if path.Some? {
      RegisterKeepsPrefix(env, n.kernel, Both(v.watches, v.db), Walk(n.fs, path.value));
      ResolveFirst(v.watches, wd, k);
      var after := LoopStep(env, v, n).watches;
      ResolveIs(after, wd, Resolve(v.watches, wd));
    }
  }

  /** So is the deletion of another directory. */
  lemma DeletionIsQuiet(env: Env, v: View, n: Notice, wd: int, k: nat)
    requires Has(n.event.mask, IN_ISDIR) && KindOf(n.event.mask).Deleted? && StepEnds(v, n)
    requires k < |v.watches| && v.watches[k].wd == wd
    requires Subject(v.watches, n.event) != Some(NameFor(v.watches, wd))
    ensures Quiet(env, v, n, wd)
  {
    var path := Subject(v.watches, n.event);
    if path.Some? {
      RemovalKeepsName(v.watches, path.value, wd, k);
    }
  }

  lemma RemovalKeepsName(ws: seq<Watch>, path: CString, wd: int, k: nat)
    requires k < |ws| && ws[k].wd == wd && path != NameFor(ws, wd)
    ensures var after := WithoutFirst(ws, path); after != [] && NameFor(after, wd) == NameFor(ws, wd)
  {
    ResolveFirst(ws, wd, k);
    var gone, r, after := FirstNamed(ws, path), Resolve(ws, wd), WithoutFirst(ws, path);
    WithoutFirstAt(ws, path);
    if gone < |ws| {
      assert gone != r;
      var now := if gone < r then r - 1 else r;
      assert after[now] == ws[r];
      forall i | 0 <= i < now ensures after[i].wd != wd {
        assert after[i] == ws[if i < gone then i else i + 1];
      }
      ResolveIs(after, wd, now);
    }
  }

  lemma WithoutFirstAt(ws: seq<Watch>, path: CString)
    ensures var gone, after := FirstNamed(ws, path), WithoutFirst(ws, path);
            if gone < |ws| then
              && ws[gone].name == path && |after| == |ws| - 1
              && forall i :: 0 <= i < |after| ==> after[i] == ws[if i < gone then i else i + 1]
            else after == ws
  {
    var gone, after := FirstNamed(ws, path), WithoutFirst(ws, path);
    if gone < |ws| {
      forall i | 0 <= i < |after| ensures after[i] == ws[if i < gone then i else i + 1] {
        assert i >= gone ==> after[i] == ws[gone + 1..][i - gone];
      }
    }
  }

  lemma {:induction false} RegisterKeepsPrefix(env: Env, kernel: CString -> int, b: Both, steps: seq<Step>)
    ensures b.watches <= RegisterSteps(env, kernel, b, steps).watches
  {
    if steps != [] {
      RegisterKeepsPrefix(env, kernel, b, steps[..|steps| - 1]);
    }
  }

  lemma {:induction false} ResolveFirst(ws: seq<Watch>, wd: int, k: nat)
    requires k < |ws| && ws[k].wd == wd
    ensures var r := Resolve(ws, wd); r <= k && ws[r].wd == wd && forall i :: 0 <= i < r ==> ws[i].wd != wd
  {
    if ws[0].wd != wd {
      ResolveFirst(ws[1..], wd, k - 1);
      assert forall i :: 0 < i < |ws| ==> ws[i] == ws[1..][i - 1];
    }
  }

  lemma ResolveIs(ws: seq<Watch>, wd: int, r: nat)
    requires r < |ws| && ws[r].wd == wd && forall i :: 0 <= i < r ==> ws[i].wd != wd
    ensures Resolve(ws, wd) == r
  {
    ResolveFirst(ws, wd, r);
  }

  // ----- Splitting a run -----

  lemma LoopRunSnoc(env: Env, v: View, notices: seq<Notice>, n: Notice)
    requires RunEnds(env, v, notices) && StepEnds(LoopRun(env, v, notices), n)
    ensures RunEnds(env, v, notices + [n])
    ensures LoopRun(env, v, notices + [n]) == LoopStep(env, LoopRun(env, v, notices), n)
  {
    assert (notices + [n])[..|notices|] == notices;
  }

  lemma {:induction false} LoopRunConcat(env: Env, v: View, a: seq<Notice>, b: seq<Notice>)
    requires RunEnds(env, v, a) && RunEnds(env, LoopRun(env, v, a), b)
    ensures RunEnds(env, v, a + b)
    ensures LoopRun(env, v, a + b) == LoopRun(env, LoopRun(env, v, a), b)
    decreases |b|
  {
    if b == [] {
      assert a + b == a;
    } else {
      assert (a + b)[..|a + b| - 1] == a + b[..|b| - 1];
      LoopRunConcat(env, v, a, b[..|b| - 1]);
    }
  }

  lemma LoopRunPair(env: Env, v: View, left: Notice, between: seq<Notice>, arrived: Notice)
    requires StepEnds(v, left) && RunEnds(env, LoopStep(env, v, left), between)
    requires StepEnds(LoopRun(env, LoopStep(env, v, left), between), arrived)
    ensures RunEnds(env, v, [left] + between + [arrived])
    ensures LoopRun(env, v, [left] + between + [arrived])
         == LoopStep(env, LoopRun(env, LoopStep(env, v, left), between), arrived)
  {
    LoopRunSnoc(env, v, [], left);
    assert [] + [left] == [left];
    LoopRunConcat(env, v, [left], between);
    LoopRunSnoc(env, v, [left] + between, arrived);
  }

  // ----- Is the directory that left remembered? -----

  /** The directory that left is still remembered after quiet events exactly if
      none of them makes the loop forget it; the watch of its descriptor is the same. */
  lemma {:induction false} RememberedIff(env: Env, v: View, notices: seq<Notice>, wd: int)
    requires RunEnds(env, v, notices) && AllQuiet(env, v, notices, wd) && v.watches != []
    ensures var v' := LoopRun(env, v, notices);
            && v'.watches != [] && NameFor(v'.watches, wd) == NameFor(v.watches, wd) && |v'.db| == |v.db|
            && v'.prev.name == v.prev.name && (v'.prev.wd == v.prev.wd || v'.prev.wd == 0)
            && (v.prev.wd != 0 ==> (v'.prev.wd == v.prev.wd <==> NoneForgets(env, v, notices)))
    decreases |notices|
  {
    if notices != [] {
      var init, last := notices[..|notices| - 1], notices[|notices| - 1];
      RememberedIff(env, v, init, wd);
      StepKeepsMemory(env, LoopRun(env, v, init), last, wd);
    }
  }

  lemma StepKeepsMemory(env: Env, v: View, n: Notice, wd: int)
    requires StepEnds(v, n) && Quiet(env, v, n, wd)
    ensures var v' := LoopStep(env, v, n);
            && |v'.db| == |v.db| && v'.prev.name == v.prev.name
            && v'.prev.wd == if Forgets(v, n) then 0 else v.prev.wd
  {
    if Has(n.event.mask, IN_ISDIR) {
      DirKeepsMemory(env, v, n);
    } else {
      FileKeepsMemory(env, v, n);
    }
  }

  lemma FileKeepsMemory(env: Env, v: View, n: Notice)
    requires !Has(n.event.mask, IN_ISDIR)
    ensures var v' := FileStep(env, v, n);
            && |v'.db| == |v.db| && v'.prev.name == v.prev.name
            && v'.prev.wd == if Forgets(v, n) then 0 else v.prev.wd
  {
  }

  lemma DirKeepsMemory(env: Env, v: View, n: Notice)
    requires Has(n.event.mask, IN_ISDIR) && StepEnds(v, n)
    requires Subject(v.watches, n.event).Some? ==> !KindOf(n.event.mask).MovedFrom? && !KindOf(n.event.mask).MovedTo?
    ensures var v' := DirStep(env, v, n);
            |v'.db| == |v.db| && v'.prev.name == v.prev.name && v'.prev.wd == v.prev.wd
  {
    var path := Subject(v.watches, n.event);
    if path.Some? && KindOf(n.event.mask).Creation? {
      RegisterKeepsSize(env, n.kernel, Both(v.watches, v.db), Walk(n.fs, path.value));
    }
  }

  lemma {:induction false} RegisterKeepsSize(env: Env, kernel: CString -> int, b: Both, steps: seq<Step>)
    ensures |RegisterSteps(env, kernel, b, steps).db| == |b.db|
  {
    if steps != [] {
      RegisterKeepsSize(env, kernel, b, steps[..|steps| - 1]);
    }
  }

  /** An event of the given kind on a directory with that path. */
  ghost predicate DirEvent(ws: seq<Watch>, n: Notice, kind: Kind, path: CString) {
    Has(n.event.mask, IN_ISDIR) && KindOf(n.event.mask) == kind && Subject(ws, n.event) == Some(path)
  }

  /** A directory leaves `org`; then quiet events happen, with the view `mid` behind them. */
  ghost predicate Leaves(
      env: Env, v: View, left: Notice, between: seq<Notice>, org: CString, mid: View)
  {
    && DirEvent(v.watches, left, MovedFrom, org)
    && RunEnds(env, LoopStep(env, v, left), between)
    && AllQuiet(env, LoopStep(env, v, left), between, left.event.wd)
    && mid == LoopRun(env, LoopStep(env, v, left), between)
  }

  /** Whether nothing made the loop forget it. */
  ghost predicate Remembered(env: Env, v: View, left: Notice, between: seq<Notice>)
    requires StepEnds(v, left) && RunEnds(env, LoopStep(env, v, left), between)
  {
    NoneForgets(env, LoopStep(env, v, left), between)
  }

  /** Where the loop then believes an arriving directory to have come from. */
  lemma OriginBehind(env: Env, v: View, left: Notice, between: seq<Notice>, org: CString, mid: View)
    requires Leaves(env, v, left, between, org, mid)
    ensures |mid.db| == |v.db| && mid.watches != []
    ensures if Remembered(env, v, left, between) then Origin(mid) == Some(org)
            else Origin(mid) == PathFor(mid.watches, 0, left.event.name)
  {
    var one := LoopStep(env, v, left);
    assert one == v.(prev := Prev(left.event.mask, left.event.wd, left.event.name));
    RememberedIff(env, one, between, left.event.wd);
  }

  /** The view when a directory has arrived at `chg` and was followed from `from`. */
  ghost function FollowedFrom(env: Env, mid: View, arrived: Notice, from: CString, chg: CString): View
    requires Progresses(arrived.fs, Spot(chg, Some(from)))
  {
    var tree := RenameWalk(arrived.fs, from, chg);
    var after := Follow(env, arrived.kernel, Both(mid.watches, mid.db), tree);
    View(after.watches, mid.created, after.db, Forgotten(mid.prev))
  }

  /** What the loop does when a directory arrives. */
  lemma ArrivalStep(env: Env, mid: View, arrived: Notice, chg: CString)
    requires DirEvent(mid.watches, arrived, MovedTo, chg) && StepEnds(mid, arrived)
    ensures LoopStep(env, mid, arrived) ==
            if Origin(mid).None? then mid else FollowedFrom(env, mid, arrived, Origin(mid).value, chg)
  {
  }

  /** The three parts of such a run. */
  lemma PairRuns(
      env: Env, v: View, left: Notice, between: seq<Notice>, arrived: Notice, org: CString, mid: View)
    requires Leaves(env, v, left, between, org, mid) && StepEnds(mid, arrived)
    ensures RunEnds(env, v, [left] + between + [arrived])
    ensures LoopRun(env, v, [left] + between + [arrived]) == LoopStep(env, mid, arrived)
  {
    LoopRunPair(env, v, left, between, arrived);
  }

  /** The loop's view after a directory left `org`, some quiet events, and a
      directory arriving at `chg`: the rename of the whole tree, if nothing made
      the loop forget in between. */
  lemma PairIsRename(
      env: Env, v: View, left: Notice, between: seq<Notice>, arrived: Notice, org: CString, chg: CString, mid: View)
    requires Leaves(env, v, left, between, org, mid) && Remembered(env, v, left, between)
    requires DirEvent(mid.watches, arrived, MovedTo, chg) && Progresses(arrived.fs, Spot(chg, Some(org)))
    ensures RunEnds(env, v, [left] + between + [arrived]) && |mid.db| == |v.db| && mid.watches != []
    ensures LoopRun(env, v, [left] + between + [arrived]) == FollowedFrom(env, mid, arrived, org, chg)
  {
    OriginBehind(env, v, left, between, org, mid);
    ArrivalStep(env, mid, arrived, chg);
    PairRuns(env, v, left, between, arrived, org, mid);
  }

  /** If it was forgotten, the arriving directory is taken for one in the
      directory that happens to be watched last. */
  lemma ForgottenOrigin(ws: seq<Watch>, name: CString)
    requires ws != [] && DistinctWds(ws) && forall k :: 0 <= k < |ws| ==> ws[k].wd >= 1
    ensures PathFor(ws, 0, name) ==
            var full := StrAppend(ws[|ws| - 1].name, name); if full.Ok? then Some(full.value) else None
  {
    ResolveKnown(ws, 0, 0);
  }

  lemma WrongOrigin(env: Env, v: View, left: Notice, between: seq<Notice>, org: CString, mid: View)
    requires Leaves(env, v, left, between, org, mid) && !Remembered(env, v, left, between)
    requires DistinctWds(mid.watches) && forall k :: 0 <= k < |mid.watches| ==> mid.watches[k].wd >= 1
    ensures mid.watches != []
    ensures var wrong := StrAppend(mid.watches[|mid.watches| - 1].name, left.event.name);
            Origin(mid) == if wrong.Ok? then Some(wrong.value) else None
  {
    OriginBehind(env, v, left, between, org, mid);
    ForgottenOrigin(mid.watches, left.event.name);
  }

  /** The other half: if it was forgotten in between, the tree that arrived is
      followed as if it had come from the directory that is watched last, or not
      at all if that path is too long. */
  lemma PairForgotten(
      env: Env, v: View, left: Notice, between: seq<Notice>, arrived: Notice, org: CString, chg: CString, mid: View)
    requires Leaves(env, v, left, between, org, mid) && !Remembered(env, v, left, between)
    requires DirEvent(mid.watches, arrived, MovedTo, chg) && StepEnds(mid, arrived)
    requires DistinctWds(mid.watches) && forall k :: 0 <= k < |mid.watches| ==> mid.watches[k].wd >= 1
    ensures RunEnds(env, v, [left] + between + [arrived]) && mid.watches != []
    ensures var wrong := StrAppend(mid.watches[|mid.watches| - 1].name, left.event.name);
            && (wrong.Ok? ==> Progresses(arrived.fs, Spot(chg, Some(wrong.value))))
            && LoopRun(env, v, [left] + between + [arrived]) ==
               if wrong.Err? then mid else FollowedFrom(env, mid, arrived, wrong.value, chg)
  {
    WrongOrigin(env, v, left, between, org, mid);
    ArrivalStep(env, mid, arrived, chg);
    PairRuns(env, v, left, between, arrived, org, mid);
  }

  /** One file closed after writing is enough. */
  lemma ForgottenAfterClose(env: Env, fs: Fs, kernel: CString -> int, from: Prev)
    requires from.wd >= 1
    ensures var v := View([Watch("/w", 1)], [], [], from);
            var close := [Notice(Event(1, "f", IN_CLOSE_WRITE, 4), fs, kernel, true)];
            RunEnds(env, v, close) && LoopRun(env, v, close).prev.wd == 0
  {
    var v, n := View([Watch("/w", 1)], [], [], from), Notice(Event(1, "f", IN_CLOSE_WRITE, 4), fs, kernel, true);
    CloseWriteMask();
    assert Subject(v.watches, n.event).Some?;
    assert [n][..0] == [];
    assert RunEnds(env, v, [n]) && LoopRun(env, v, [n]) == LoopStep(env, v, n);
  }

  lemma CloseWriteMask()
    ensures KindOf(IN_CLOSE_WRITE).CloseWrite? && !Has(IN_CLOSE_WRITE, IN_ISDIR)
  {
  }

  /** End to end: the pair of events moves, in every plugin, the items of the
      regular files of the tree from the old paths to the new ones, and nothing else. */
  lemma RenamePairMovesItems(
      env: Env, v: View, left: Notice, between: seq<Notice>, arrived: Notice, org: CString, chg: CString, mid: View,
      i: nat, p: CString)
    requires Leaves(env, v, left, between, org, mid) && Remembered(env, v, left, between)
    requires DirEvent(mid.watches, arrived, MovedTo, chg)
    requires Straight(arrived.fs, org, chg) && Apart(org, chg) && NoFailures(env) && i < |v.db|
    ensures RunEnds(env, v, [left] + between + [arrived])
    ensures var after := LoopRun(env, v, [left] + between + [arrived]);
            && |mid.db| == |after.db| == |v.db|
            && Lookup(after.db[i], p) ==
               ItemAfter(Renaming(env, arrived.kernel, org, chg), arrived.fs, i, mid.db[i], p)
  {
    BothProgress(arrived.fs, org, chg);
    PairIsRename(env, v, left, between, arrived, org, chg, mid);
    TreeItemsFollow(Renaming(env, arrived.kernel, org, chg), arrived.fs, Both(mid.watches, mid.db), i, p);
  }

  /** And the watches follow the tree, in one and the same list. */
  lemma RenamePairMovesWatches(
      env: Env, v: View, left: Notice, between: seq<Notice>, arrived: Notice, org: CString, chg: CString, mid: View)
    requires Leaves(env, v, left, between, org, mid) && Remembered(env, v, left, between)
    requires DirEvent(mid.watches, arrived, MovedTo, chg)
    requires Straight(arrived.fs, org, chg) && Apart(org, chg) && DistinctNames(mid.watches)
    ensures RunEnds(env, v, [left] + between + [arrived])
    ensures WatchesFollow(Renaming(env, arrived.kernel, org, chg), arrived.fs, mid.watches,
                          LoopRun(env, v, [left] + between + [arrived]).watches)
  {
    BothProgress(arrived.fs, org, chg);
    PairIsRename(env, v, left, between, arrived, org, chg, mid);
    TreeWatchesFollow(Renaming(env, arrived.kernel, org, chg), arrived.fs, Both(mid.watches, mid.db));
  }

  // ----- A directory is created or deleted -----

  /** A new directory: its whole tree is registered. The watches there were stay
      in front; a directory is watched afterwards if it was before or if the walk
      comes to it and the kernel can watch it; an item is there if it was before
      or if it is met there and accepted. Nothing else changes but the mask remembered. */
  lemma CreationRegistersTree(env: Env, v: View, n: Notice, path: CString, i: nat, p: CString)
    requires DirEvent(v.watches, n, Creation, path) && Progresses(n.fs, Spot(path, None))
    requires DistinctNames(v.watches) && NoFailures(env) && i < |v.db|
    ensures StepEnds(v, n)
    ensures var after := LoopStep(env, v, n);
            && v.watches <= after.watches && DistinctNames(after.watches)
            && (Named(after.watches, p) <==> Named(v.watches, p) || (Called(n.fs, path, p) && n.kernel(p) > 0))
            && (forall k :: |v.watches| <= k < |after.watches| ==>
                  after.watches[k].wd == n.kernel(after.watches[k].name))
            && |after.db| == |v.db|
            && (p in after.db[i] <==> p in v.db[i] || (env.Accepts(i, p) && exists t :: MetIn(n.fs, path, p, t)))
            && after == View(after.watches, v.created, after.db, Prev(n.event.mask, v.prev.wd, v.prev.name))
  {
    RegisteredWholeTree(env, n.kernel, Both(v.watches, v.db), n.fs, path, i, p);
    NewDescriptors(env, n.kernel, Both(v.watches, v.db), Walk(n.fs, path));
  }

  /** A directory is gone: exactly the first watch of its path goes, all others
      stay in order, and nothing else changes. */
  lemma DeletionDropsWatch(env: Env, v: View, n: Notice, path: CString)
    requires DirEvent(v.watches, n, Deleted, path)
    ensures StepEnds(v, n)
    ensures var after := LoopStep(env, v, n);
            && after == View(after.watches, v.created, v.db, v.prev)
            && (!Named(v.watches, path) ==> after.watches == v.watches)
            && forall k :: 0 <= k < |v.watches| && v.watches[k].name == path
                                              && (forall j :: 0 <= j < k ==> v.watches[j].name != path) ==>
                 after.watches == v.watches[..k] + v.watches[k + 1..]
  {
  }

  /** A directory event of no kind that the loop knows, and one that is passed over, change nothing. */
  lemma OtherDirEvents(env: Env, v: View, n: Notice)
    requires Has(n.event.mask, IN_ISDIR)
    requires Subject(v.watches, n.event).None? || KindOf(n.event.mask).CloseWrite? || KindOf(n.event.mask).Other?
    ensures StepEnds(v, n) && LoopStep(env, v, n) == v
  {
  }

  // ----- When do watch names stay distinct? -----

  /** The directory that arrives is followed, to this place from that one. */
  ghost predicate Follows(v: View, n: Notice) {
    var to := Subject(v.watches, n.event);
    && Has(n.event.mask, IN_ISDIR) && KindOf(n.event.mask).MovedTo?
    && to.Some? && Origin(v).Some? && to.value in n.fs
  }

  /** Its tree has nothing in common with the one it is taken for, and the walk
      over it pairs old and new paths. */
  ghost predicate PlainArrival(v: View, n: Notice) {
    Follows(v, n) ==>
      var to, from := Subject(v.watches, n.event).value, Origin(v).value;
      Straight(n.fs, from, to) && Apart(from, to)
  }

  /** No watch gets a name that is taken. */
  ghost predicate FreeArrival(env: Env, v: View, n: Notice) {
    Follows(v, n) ==>
      NoneTaken(Renaming(env, n.kernel, Origin(v).value, Subject(v.watches, n.event).value), n.fs, v.watches)
  }

  lemma {:induction false} RegisterKeepsDistinct(env: Env, kernel: CString -> int, b: Both, steps: seq<Step>)
    requires DistinctNames(b.watches)
    ensures DistinctNames(RegisterSteps(env, kernel, b, steps).watches)
  {
    if steps != [] {
      var before := RegisterSteps(env, kernel, b, steps[..|steps| - 1]).watches;
      RegisterKeepsDistinct(env, kernel, b, steps[..|steps| - 1]);
      match steps[|steps| - 1] {
        case Visit(dir) => AddedKeepsDistinct(before, dir, kernel(dir));
        case File(_, _) =>
      }
    }
  }

  lemma StepKeepsDistinctIff(env: Env, v: View, n: Notice)
    requires DistinctNames(v.watches) && StepEnds(v, n) && PlainArrival(v, n)
    ensures DistinctNames(LoopStep(env, v, n).watches) <==> FreeArrival(env, v, n)
  {
    var to := Subject(v.watches, n.event);
    if Has(n.event.mask, IN_ISDIR) && to.Some? {
      var both := Both(v.watches, v.db);
      match KindOf(n.event.mask) {
        case Creation => RegisterKeepsDistinct(env, n.kernel, both, Walk(n.fs, to.value));
        case MovedTo =>
          if Follows(v, n) {
            TreeWatchesFollow(Renaming(env, n.kernel, Origin(v).value, to.value), n.fs, both);
          }
        case _ =>
      }
    }
  }

  ghost predicate AllPlain(env: Env, v: View, notices: seq<Notice>)
    requires RunEnds(env, v, notices)
  {
    notices == [] ||
    var init, last := notices[..|notices| - 1], notices[|notices| - 1];
    AllPlain(env, v, init) && PlainArrival(LoopRun(env, v, init), last)
  }

  ghost predicate AllFree(env: Env, v: View, notices: seq<Notice>)
    requires RunEnds(env, v, notices)
  {
    notices == [] ||
    var init, last := notices[..|notices| - 1], notices[|notices| - 1];
    AllFree(env, v, init) && FreeArrival(env, LoopRun(env, v, init), last)
  }

  /** No two watches have the same name after any of the events. */
  ghost predicate DistinctThroughout(env: Env, v: View, notices: seq<Notice>)
    requires RunEnds(env, v, notices)
  {
    notices == [] ||
    (DistinctThroughout(env, v, notices[..|notices| - 1]) && DistinctNames(LoopRun(env, v, notices).watches))
  }

  /** Over whole runs, with events of all kinds: watch names stay distinct if and
      only if no arriving directory gives a watch a name that is taken. */
  lemma {:induction false} NamesStayDistinctIff(env: Env, v: View, notices: seq<Notice>)
    requires DistinctNames(v.watches) && RunEnds(env, v, notices) && AllPlain(env, v, notices)
    ensures DistinctThroughout(env, v, notices) <==> AllFree(env, v, notices)
    ensures DistinctThroughout(env, v, notices) ==> DistinctNames(LoopRun(env, v, notices).watches)
    decreases |notices|
  {
    if notices != [] {
      var init, last := notices[..|notices| - 1], notices[|notices| - 1];
      NamesStayDistinctIff(env, v, init);
      if DistinctThroughout(env, v, init) {
        StepKeepsDistinctIff(env, LoopRun(env, v, init), last);
      }
    }
  }
}
