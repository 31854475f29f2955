/** What following a renamed tree amounts to, for every tree: items and
    watches below the old root end up below the new one. */
module RenamedTree {
  import opened Base
  import opened FileTree
  import opened MediaDb
  import opened WalkEnds
  import opened WatchList
  import opened RecursiveWalk
  import opened WalkResults
  import opened Rename
  import opened RenamePairs

  /** One renaming: the old and the new root of the tree, and the answers of
      the plugins and of inotify_add_watch. */
  datatype Renaming = Renaming(env: Env, kernel: CString -> int, org: CString, chg: CString)

  /** One step of the walk over the new tree, followed. */
  function RenameStep(r: Renaming, b: Both, step: Step): (after: Both)
    ensures |after.watches| >= |b.watches| && |after.db| == |b.db|
  {
    FollowOne(r.env, r.kernel, b, PairOf(r.org, r.chg, step))
  }

  function RenameSteps(r: Renaming, b: Both, steps: seq<Step>): (after: Both)
    ensures |after.watches| >= |b.watches| && |after.db| == |b.db|
  {
    if steps == [] then b
    else RenameStep(r, RenameSteps(r, b, steps[..|steps| - 1]), steps[|steps| - 1])
  }

  lemma {:induction false} FollowPaired(r: Renaming, b: Both, steps: seq<Step>)
    ensures Follow(r.env, r.kernel, b, Paired(r.org, r.chg, steps)) == RenameSteps(r, b, steps)
  {
    if steps != [] {
      var n := |steps| - 1;
      var init := Paired(r.org, r.chg, steps[..n]);
      FollowPaired(r, b, steps[..n]);
      assert Paired(r.org, r.chg, steps)[..|init|] == init;
    }
  }

  /** The walk over the new tree ends, and the one with the old paths is the same, paired. */
  ghost predicate Straight(fs: Fs, org: CString, chg: CString) {
    Progresses(fs, Spot(chg, None)) && AllPair(fs, org, chg) && |chg| <= MS_FILE_PATH_LEN_MAX - 2
  }

  lemma FollowIsRename(r: Renaming, fs: Fs, b: Both)
    requires Straight(fs, r.org, r.chg)
    ensures Progresses(fs, Spot(r.chg, Some(r.org)))
    ensures Follow(r.env, r.kernel, b, RenameWalk(fs, r.org, r.chg)) == RenameSteps(r, b, Walk(fs, r.chg))
  {
    RenameWalkPairsIff(fs, r.org, r.chg);
    FollowPaired(r, b, Walk(fs, r.chg));
  }

  ghost predicate Apart(p: CString, q: CString) {
    !Under(p, q) && !Under(q, p)
  }

  /** Changing the root is undone by changing it back. */
  lemma RebasedBack(old_root: CString, new_root: CString, p: CString)
    requires Under(old_root, p)
    ensures var q := Rebased(old_root, new_root, p); Under(new_root, q) && Rebased(new_root, old_root, q) == p
  {
    UnderIsPrefix(old_root, p);
    var rest := p[|old_root|..];
    var q := Rebased(old_root, new_root, p);
    assert q == new_root + rest;
    assert (p + "/")[|old_root|..] == rest + "/";
    assert (p + "/")[|old_root|] == '/' by {
      assert (old_root + "/")[|old_root|] == '/';
    }
    assert q + "/" == new_root + (rest + "/");
    assert (rest + "/")[0] == '/';
    assert forall i :: 0 <= i <= |new_root| ==> (new_root + "/")[i] == (q + "/")[i];
    assert q[|new_root|..] == rest;
  }

  /** The ancestors of a path lie under one another. */
  lemma BothUnder(p: CString, q: CString, x: CString)
    requires Under(p, x) && Under(q, x)
    ensures Under(p, q) || Under(q, p)
  {
    if |p| <= |q| {
      assert forall i :: 0 <= i <= |p| ==> (p + "/")[i] == (x + "/")[i] == (q + "/")[i];
    } else {
      assert forall i :: 0 <= i <= |q| ==> (q + "/")[i] == (x + "/")[i] == (p + "/")[i];
    }
  }

  lemma NotUnderBoth(p: CString, q: CString, x: CString)
    requires Apart(p, q) && Under(p, x)
    ensures !Under(q, x)
  {
    if Under(q, x) {
      BothUnder(p, q, x);
    }
  }

  // ----- The database -----

  function Lookup(m: Plugin, p: CString): Option<Record> {
    if p in m then Some(m[p]) else None
  }

  /** Plugin `i` is told to move an item to `to`. */
  predicate Taken(r: Renaming, steps: seq<Step>, i: nat, to: CString) {
    && File(to, Reg) in steps
    && Moves(Rebased(r.chg, r.org, to), to)
    && r.env.Accepts(i, to)
  }

  /** The plugin has an item at `p`, filed under the storage of that path. */
  predicate HoldsItem(m: Plugin, p: CString) {
    Exists(m, p, StorageOf(p))
  }

  /** The item of `p` after the renaming: it came from the old tree, or moved
      to the new one, or has nothing to do with either. */
  function Renamed(r: Renaming, steps: seq<Step>, i: nat, m: Plugin, p: CString): Option<Record> {
    if Taken(r, steps, i, p) && HoldsItem(m, Rebased(r.chg, r.org, p))
    then Some(Record(StorageOf(p), m[Rebased(r.chg, r.org, p)].valid))
    else if Under(r.org, p) && HoldsItem(m, p) && Taken(r, steps, i, Rebased(r.org, r.chg, p)) then None
    else Lookup(m, p)
  }

  /** Plugin `i` after the item for `to` was moved there. */
  function Moved(r: Renaming, i: nat, m: Plugin, to: CString): Plugin {
    var from := Rebased(r.chg, r.org, to);
    MoveOne(r.env, i, m, StorageOf(from), StorageOf(to), from, to)
  }

  /** Plugin `i` after one step. */
  lemma StepItems(r: Renaming, b: Both, step: Step, i: nat)
    requires NoFailures(r.env) && i < |b.db|
    ensures var m := b.db[i];
            RenameStep(r, b, step).db[i] ==
            if step.File? && Taken(r, [step], i, step.path) then Moved(r, i, m, step.path) else m
  {
  }

  /** One more step: `now` is the table that the steps `init` made of `m`. */
  lemma OneMoreMove(r: Renaming, init: seq<Step>, to: CString, i: nat, m: Plugin, now: Plugin, p: CString)
    requires Apart(r.org, r.chg) && Inside(r.chg, init) && Under(r.chg, to) && NoFailures(r.env)
    requires Moves(Rebased(r.chg, r.org, to), to) && r.env.Accepts(i, to)
    requires forall x :: Lookup(now, x) == Renamed(r, init, i, m, x)
    ensures Lookup(Moved(r, i, now, to), p) == Renamed(r, init + [File(to, Reg)], i, m, p)
  {
    var from, steps := Rebased(r.chg, r.org, to), init + [File(to, Reg)];
    RebasedBack(r.chg, r.org, to);
    NotUnderBoth(r.org, r.chg, from);
    NotUnderBoth(r.chg, r.org, to);
    assert !Taken(r, init, i, from) by {
      forall k | 0 <= k < |init| ensures init[k] != File(from, Reg) {
        assert Under(r.chg, PathIn(init[k]));
      }
    }
    assert Lookup(now, from) == Renamed(r, init, i, m, from);
    assert Lookup(now, to) == Renamed(r, init, i, m, to);
    assert Lookup(now, p) == Renamed(r, init, i, m, p);
    if Under(r.org, p) {
      RebasedBack(r.org, r.chg, p);
    }
    assert Taken(r, steps, i, p) <==> Taken(r, init, i, p) || p == to;
  }

  /** Every plugin ends up with exactly the renamed items. */
  lemma {:induction false} RenamedItems(r: Renaming, b: Both, steps: seq<Step>, i: nat)
    requires Apart(r.org, r.chg) && Inside(r.chg, steps) && NoFailures(r.env) && i < |b.db|
    ensures forall p :: Lookup(RenameSteps(r, b, steps).db[i], p) == Renamed(r, steps, i, b.db[i], p)
    decreases |steps|
  {
    if steps != [] {
      var init, last := steps[..|steps| - 1], steps[|steps| - 1];
      assert steps == init + [last];
      RenamedItems(r, b, init, i);
      var mid := RenameSteps(r, b, init);
      StepItems(r, mid, last, i);
      forall p ensures Lookup(RenameSteps(r, b, steps).db[i], p) == Renamed(r, steps, i, b.db[i], p) {
        if last.File? && Taken(r, [last], i, last.path) {
          OneMoreMove(r, init, last.path, i, b.db[i], mid.db[i], p);
        } else {
          assert Lookup(mid.db[i], p) == Renamed(r, init, i, b.db[i], p);
          SameTaken(r, init, last, i, p);
          SameTaken(r, init, last, i, Rebased(r.org, r.chg, p));
        }
      }
    }
  }

  lemma SameTaken(r: Renaming, init: seq<Step>, last: Step, i: nat, to: CString)
    requires !(last.File? && Taken(r, [last], i, last.path))
    ensures Taken(r, init + [last], i, to) <==> Taken(r, init, i, to)
  {
    assert File(to, Reg) == last ==> File(to, Reg) in [last];
  }

  // ----- The watch list -----

  /** The new name of a watch: that of the visited directory it was the watch of. */
  function NewName(r: Renaming, steps: seq<Step>, name: CString): CString {
    var to := Rebased(r.org, r.chg, name);
    if Under(r.org, name) && Visit(to) in steps then to else name
  }

  /** No watch before `k` has its name. */
  ghost predicate NameIsNew(ws: seq<Watch>, k: nat)
    requires k < |ws|
  {
    forall i :: 0 <= i < k ==> ws[i].name != ws[k].name
  }

  /** What the steps make of the watches `ws`. The first watch is never touched,
      and a watch that was added has a name that no watch before it has. */
  ghost predicate WatchesRenamed(r: Renaming, steps: seq<Step>, ws: seq<Watch>, after: seq<Watch>) {
    && 0 < |ws| <= |after|
    && after[0] == ws[0]
    && (forall k {:trigger after[k]} :: 0 < k < |ws| ==> after[k] == Watch(NewName(r, steps, ws[k].name), ws[k].wd))
    && (forall k {:trigger after[k]} :: |ws| <= k < |after| ==>
          Visit(after[k].name) in steps && after[k].wd == r.kernel(after[k].name) > 0
          && NameIsNew(after, k))
    && (forall q {:trigger Visit(q) in steps} :: Visit(q) in steps && r.kernel(q) > 0 ==> Named(after, q))
  }

  lemma NoMoreVisits(r: Renaming, init: seq<Step>, last: Step, ws: seq<Watch>, mid: seq<Watch>)
    requires last.File? && WatchesRenamed(r, init, ws, mid)
    ensures WatchesRenamed(r, init + [last], ws, mid)
  {
    assert forall q :: Visit(q) in init + [last] <==> Visit(q) in init;
    forall k | 0 < k < |ws| ensures mid[k] == Watch(NewName(r, init + [last], ws[k].name), ws[k].wd) {
      assert mid[k] == Watch(NewName(r, init, ws[k].name), ws[k].wd);
    }
  }

  /** Existing watches of the visited directories are renamed and keep their
      descriptors, missing ones are added, and all others stay. */
  lemma {:induction false} RenamedWatches(r: Renaming, b: Both, steps: seq<Step>)
    requires Apart(r.org, r.chg) && Inside(r.chg, steps)
    requires b.watches != [] && DistinctNames(b.watches)
    ensures WatchesRenamed(r, steps, b.watches, RenameSteps(r, b, steps).watches)
    decreases |steps|
  {
    if steps == [] {
      assert forall k :: 0 <= k < |b.watches| ==> NewName(r, [], b.watches[k].name) == b.watches[k].name;
    } else {
      var init, last := steps[..|steps| - 1], steps[|steps| - 1];
      assert steps == init + [last];
      RenamedWatches(r, b, init);
      var mid := RenameSteps(r, b, init).watches;
      match last {
        case File(_, _) => NoMoreVisits(r, init, last, b.watches, mid);
        case Visit(to) => OneMoreVisit(r, init, to, b.watches, mid);
      }
    }
  }

  lemma VisitedUnder(root: CString, steps: seq<Step>, q: CString)
    requires Inside(root, steps) && Visit(q) in steps
    ensures Under(root, q)
  {
    var n :| 0 <= n < |steps| && steps[n] == Visit(q);
    assert Under(root, PathIn(steps[n]));
  }

  /** A watch found under the old name of a directory is one that was there
      before, not the first, and the directory was not visited yet. */
  lemma FoundUnderOldName(r: Renaming, init: seq<Step>, to: CString, ws: seq<Watch>, mid: seq<Watch>, k: nat)
    requires Apart(r.org, r.chg) && Inside(r.chg, init) && Under(r.chg, to)
    requires DistinctNames(ws) && WatchesRenamed(r, init, ws, mid)
    requires 0 < k < |mid| && mid[k].name == Rebased(r.chg, r.org, to)
    ensures k < |ws| && ws[k].name == mid[k].name && Visit(to) !in init
  {
    var from := Rebased(r.chg, r.org, to);
    RebasedBack(r.chg, r.org, to);
    NotUnderBoth(r.org, r.chg, from);
    assert mid[k].name == from;
    if k >= |ws| {
      VisitedUnder(r.chg, init, from);
    }
    OldOrRebased(r, init, ws[k].name);
  }

  lemma OldOrRebased(r: Renaming, steps: seq<Step>, name: CString)
    ensures var new_name := NewName(r, steps, name);
            new_name == name ||
            (Under(r.chg, new_name) && Visit(new_name) in steps && Rebased(r.chg, r.org, new_name) == name)
  {
    if Under(r.org, name) {
      RebasedBack(r.org, r.chg, name);
    }
  }

  /** Only the watch of the directory's old path gets another name. */
  lemma NewNameSnoc(r: Renaming, init: seq<Step>, to: CString, name: CString)
    requires Under(r.chg, to)
    ensures NewName(r, init + [Visit(to)], name)
         == if name == Rebased(r.chg, r.org, to) then to else NewName(r, init, name)
  {
    RebasedBack(r.chg, r.org, to);
    if Under(r.org, name) {
      RebasedBack(r.org, r.chg, name);
    }
    assert forall q :: Visit(q) in init + [Visit(to)] <==> Visit(q) in init || q == to;
  }

  lemma AddedIsNew(r: Renaming, init: seq<Step>, to: CString, ws: seq<Watch>, mid: seq<Watch>, j: nat)
    requires Apart(r.org, r.chg) && Inside(r.chg, init) && Under(r.chg, to)
    requires ws != [] && DistinctNames(ws) && WatchesRenamed(r, init, ws, mid)
    requires |ws| <= j < |Modified(mid, Rebased(r.chg, r.org, to), to, r.kernel(to))|
    ensures NameIsNew(Modified(mid, Rebased(r.chg, r.org, to), to, r.kernel(to)), j)
  {
    var from := Rebased(r.chg, r.org, to);
    var k := FirstNamed(mid, from);
    if 0 < k < |mid| {
      FoundUnderOldName(r, init, to, ws, mid, k);
    }
    if j < |mid| {
      assert Visit(mid[j].name) in init && NameIsNew(mid, j);
    }
  }

  lemma OneMoreVisit(r: Renaming, init: seq<Step>, to: CString, ws: seq<Watch>, mid: seq<Watch>)
    requires Apart(r.org, r.chg) && Inside(r.chg, init) && Under(r.chg, to)
    requires ws != [] && DistinctNames(ws) && WatchesRenamed(r, init, ws, mid)
    ensures WatchesRenamed(r, init + [Visit(to)], ws, Modified(mid, Rebased(r.chg, r.org, to), to, r.kernel(to)))
  {
    var from, steps := Rebased(r.chg, r.org, to), init + [Visit(to)];
    RebasedBack(r.chg, r.org, to);
    NotUnderBoth(r.org, r.chg, from);
    var k := FirstNamed(mid, from);
    var after := Modified(mid, from, to, r.kernel(to));
    if 0 < k < |mid| {
      FoundUnderOldName(r, init, to, ws, mid, k);
    }
    forall j | 0 < j < |ws| ensures after[j] == Watch(NewName(r, steps, ws[j].name), ws[j].wd) {
      NewNameSnoc(r, init, to, ws[j].name);
      assert mid[j] == Watch(NewName(r, init, ws[j].name), ws[j].wd);
    }
    forall j: nat | |ws| <= j < |after|
      ensures Visit(after[j].name) in steps && after[j].wd == r.kernel(after[j].name) > 0 && NameIsNew(after, j)
    {
      assert j < |mid| ==> after[j] == mid[j];
      AddedIsNew(r, init, to, ws, mid, j);
    }
    forall q | Visit(q) in steps && r.kernel(q) > 0 ensures Named(after, q) {
      if q != to {
        assert Visit(q) in init;
        VisitedUnder(r.chg, init, q);
      }
      ModifiedNames(mid, from, to, r.kernel(to), q);
    }
  }

  /** No watch but the first gets a name that is in the list already. */
  ghost predicate NoNameTaken(r: Renaming, steps: seq<Step>, ws: seq<Watch>) {
    forall k {:trigger ws[k]} :: 0 < k < |ws| ==>
      NewName(r, steps, ws[k].name) == ws[k].name || !Named(ws, NewName(r, steps, ws[k].name))
  }

  /** Names stay distinct exactly then. */
  lemma StayDistinctIff(r: Renaming, steps: seq<Step>, ws: seq<Watch>, after: seq<Watch>)
    requires Apart(r.org, r.chg) && DistinctNames(ws) && WatchesRenamed(r, steps, ws, after)
    ensures DistinctNames(after) <==> NoNameTaken(r, steps, ws)
  {
    if NoNameTaken(r, steps, ws) {
      forall i, j | 0 <= i < j < |after| ensures after[i].name != after[j].name {
        if j < |ws| {
          OldOrRebased(r, steps, ws[i].name);
          OldOrRebased(r, steps, ws[j].name);
          assert after[j] == Watch(NewName(r, steps, ws[j].name), ws[j].wd);
          assert i > 0 ==> after[i] == Watch(NewName(r, steps, ws[i].name), ws[i].wd);
        } else {
          assert NameIsNew(after, j);
        }
      }
    } else {
      var k :| 0 < k < |ws| && NewName(r, steps, ws[k].name) != ws[k].name && Named(ws, NewName(r, steps, ws[k].name));
      var to := NewName(r, steps, ws[k].name);
      var i :| 0 <= i < |ws| && ws[i].name == to;
      OldOrRebased(r, steps, ws[k].name);
      if Under(r.org, to) {
        NotUnderBoth(r.org, r.chg, to);
      }
      assert after[k].name == to;
      assert after[i].name == to && i != k;
    }
  }

  /** No watch is left under the old name of a visited directory, unless it was the first one. */
  lemma NoOldNameIff(r: Renaming, steps: seq<Step>, ws: seq<Watch>, after: seq<Watch>)
    requires Apart(r.org, r.chg) && Inside(r.chg, steps) && WatchesRenamed(r, steps, ws, after)
    ensures (forall q {:trigger Visit(q) in steps} :: Visit(q) in steps ==> !Named(after, Rebased(r.chg, r.org, q)))
       <==> NewName(r, steps, ws[0].name) == ws[0].name
  {
    var first := ws[0].name;
    OldOrRebased(r, steps, first);
    if NewName(r, steps, first) != first {
      assert Named(after, first) by {
        assert after[0].name == first;
      }
      assert Visit(NewName(r, steps, first)) in steps;
    } else {
      forall q | Visit(q) in steps ensures !Named(after, Rebased(r.chg, r.org, q)) {
        var from := Rebased(r.chg, r.org, q);
        VisitedUnder(r.chg, steps, q);
        RebasedBack(r.chg, r.org, q);
        NotUnderBoth(r.org, r.chg, from);
        assert NewName(r, steps, from) == q && q != from;
        forall k | 0 <= k < |after| ensures after[k].name != from {
          if 0 < k < |ws| {
            OldOrRebased(r, steps, ws[k].name);
            assert after[k] == Watch(NewName(r, steps, ws[k].name), ws[k].wd);
          } else if |ws| <= k {
            VisitedUnder(r.chg, steps, after[k].name);
          }
        }
      }
    }
  }

  /** A list whose first and only watch is that of the renamed directory: it
      keeps its name, and the new name is added. */
  lemma FirstWatchStays(r: Renaming, db: Db)
    requires r.org != r.chg && r.kernel(r.chg) > 0
    ensures RenameSteps(r, Both([Watch(r.org, 1)], db), [Visit(r.chg)]).watches
         == [Watch(r.org, 1), Watch(r.chg, r.kernel(r.chg))]
  {
    var ws := [Watch(r.org, 1)];
    assert [Visit(r.chg)][..0] == [];
    assert Rebased(r.chg, r.org, r.chg) == r.org && FirstNamed(ws, r.org) == 0 && !Named(ws, r.chg);
  }

  // ----- Main results -----

  /** An item that plugin `i` is told to move to `to`. */
  ghost predicate Moving(r: Renaming, fs: Fs, i: nat, to: CString) {
    && MetIn(fs, r.chg, to, Reg) && r.env.Accepts(i, to)
    && !StorageOf(to).NoStorage? && !StorageOf(Rebased(r.chg, r.org, to)).NoStorage?
  }

  /** What plugin `i` holds at `p` after the renaming, if it was `m` before: at the
      new path of a regular file that it moves what it held at the old path,
      nothing at the old path, and elsewhere what it held before. */
  ghost function ItemAfter(r: Renaming, fs: Fs, i: nat, m: Plugin, p: CString): Option<Record> {
    var from := Rebased(r.chg, r.org, p);
    if Moving(r, fs, i, p) && HoldsItem(m, from) then Some(Record(StorageOf(p), m[from].valid))
    else if Under(r.org, p) && HoldsItem(m, p) && Moving(r, fs, i, Rebased(r.org, r.chg, p)) then None
    else Lookup(m, p)
  }

  lemma TreeItemsFollow(r: Renaming, fs: Fs, b: Both, i: nat, p: CString)
    requires Straight(fs, r.org, r.chg) && Apart(r.org, r.chg) && NoFailures(r.env) && i < |b.db|
    ensures Progresses(fs, Spot(r.chg, Some(r.org)))
    ensures Lookup(Follow(r.env, r.kernel, b, RenameWalk(fs, r.org, r.chg)).db[i], p) == ItemAfter(r, fs, i, b.db[i], p)
  {
    FollowIsRename(r, fs, b);
    WalkInside(fs, r.chg);
    RenamedItems(r, b, Walk(fs, r.chg), i);
    WalkMeets(fs, r.chg, p, Reg);
    WalkMeets(fs, r.chg, Rebased(r.org, r.chg, p), Reg);
  }

  /** The watch of a directory of the old tree that the walk visits under its new name. */
  ghost predicate Followed(r: Renaming, fs: Fs, name: CString) {
    Under(r.org, name) && Called(fs, r.chg, Rebased(r.org, r.chg, name))
  }

  ghost function NameAfter(r: Renaming, fs: Fs, name: CString): CString {
    if Followed(r, fs, name) then Rebased(r.org, r.chg, name) else name
  }

  ghost predicate NoneTaken(r: Renaming, fs: Fs, ws: seq<Watch>) {
    forall k {:trigger ws[k]} :: 0 < k < |ws| && Followed(r, fs, ws[k].name) ==>
      !Named(ws, Rebased(r.org, r.chg, ws[k].name))
  }

  /** The list keeps its order and its descriptors; every watch but the first
      is renamed exactly when it belonged to a directory of the tree;
      directories without a watch get one; names stay distinct exactly if no
      watch, apart from the first, gets a name that is taken already; and the
      old tree is gone from the list exactly if the first watch did not belong to it. */
  ghost predicate WatchesFollow(r: Renaming, fs: Fs, ws: seq<Watch>, after: seq<Watch>) {
    && 0 < |ws| <= |after| && after[0] == ws[0]
    && (DistinctNames(after) <==> NoneTaken(r, fs, ws))
    && (forall k {:trigger after[k]} :: 0 < k < |ws| ==>
          after[k] == Watch(NameAfter(r, fs, ws[k].name), ws[k].wd))
    && (forall k {:trigger after[k]} :: |ws| <= k < |after| ==>
          Called(fs, r.chg, after[k].name) && after[k].wd == r.kernel(after[k].name) > 0)
    && (forall q :: Called(fs, r.chg, q) && r.kernel(q) > 0 ==> Named(after, q))
    && ((forall q :: Called(fs, r.chg, q) ==> !Named(after, Rebased(r.chg, r.org, q)))
        <==> !Followed(r, fs, ws[0].name))
  }

  lemma TreeWatchesFollow(r: Renaming, fs: Fs, b: Both)
    requires Straight(fs, r.org, r.chg) && Apart(r.org, r.chg) && b.watches != [] && DistinctNames(b.watches)
    ensures Progresses(fs, Spot(r.chg, Some(r.org)))
    ensures WatchesFollow(r, fs, b.watches, Follow(r.env, r.kernel, b, RenameWalk(fs, r.org, r.chg)).watches)
  {
    FollowIsRename(r, fs, b);
    var steps, ws := Walk(fs, r.chg), b.watches;
    WalkInside(fs, r.chg);
    RenamedWatches(r, b, steps);
    forall q ensures Visit(q) in steps <==> Called(fs, r.chg, q) {
      WalkVisitsCalled(fs, r.chg, q);
    }
    StepsToTree(r, fs, steps, ws, RenameSteps(r, b, steps).watches);
  }

  /** The steps visit just the directories of the tree. */
  ghost predicate VisitTree(r: Renaming, fs: Fs, steps: seq<Step>) {
    && Apart(r.org, r.chg) && Inside(r.chg, steps)
    && forall q {:trigger Visit(q) in steps} {:trigger Called(fs, r.chg, q)} ::
         Visit(q) in steps <==> Called(fs, r.chg, q)
  }

  lemma NameInTree(r: Renaming, fs: Fs, steps: seq<Step>, name: CString)
    requires VisitTree(r, fs, steps)
    ensures NewName(r, steps, name) == NameAfter(r, fs, name)
    ensures NewName(r, steps, name) == name <==> !Followed(r, fs, name)
  {
    NewNameDiffers(r, steps, name);
  }

  lemma TakenIff(r: Renaming, fs: Fs, steps: seq<Step>, ws: seq<Watch>)
    requires VisitTree(r, fs, steps)
    ensures NoNameTaken(r, steps, ws) <==> NoneTaken(r, fs, ws)
  {
    forall k | 0 < k < |ws|
      ensures NewName(r, steps, ws[k].name) == ws[k].name <==> !Followed(r, fs, ws[k].name)
      ensures Followed(r, fs, ws[k].name) ==> NewName(r, steps, ws[k].name) == Rebased(r.org, r.chg, ws[k].name)
    {
      NameInTree(r, fs, steps, ws[k].name);
    }
  }

  lemma StepsToTree(r: Renaming, fs: Fs, steps: seq<Step>, ws: seq<Watch>, after: seq<Watch>)
    requires VisitTree(r, fs, steps) && DistinctNames(ws) && WatchesRenamed(r, steps, ws, after)
    ensures WatchesFollow(r, fs, ws, after)
  {
    StayDistinctIff(r, steps, ws, after);
    TakenIff(r, fs, steps, ws);
    NoOldNameIff(r, steps, ws, after);
    NameInTree(r, fs, steps, ws[0].name);
    forall k | 0 < k < |ws|
      ensures after[k] == Watch(NameAfter(r, fs, ws[k].name), ws[k].wd)
    {
      NameInTree(r, fs, steps, ws[k].name);
    }
  }

  lemma NewNameDiffers(r: Renaming, steps: seq<Step>, name: CString)
    requires Apart(r.org, r.chg)
    ensures NewName(r, steps, name) == name <==> !(Under(r.org, name) && Visit(Rebased(r.org, r.chg, name)) in steps)
  {
    if Under(r.org, name) {
      RebasedBack(r.org, r.chg, name);
      NotUnderBoth(r.org, r.chg, name);
    }
  }
}
