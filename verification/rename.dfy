/** _ms_inoti_scan_renamed_folder: after a directory moved, the watches below
    it are renamed and the items of its files are moved. */
module Rename {
  import opened Base
  import opened FileTree
  import opened MediaDb
  import opened WalkEnds
  import opened WatchList
  import opened RecursiveWalk

  /** What the walk over the two trees meets: a directory, or another entry. */
  datatype Pair = Folder(from: CString, to: CString) | Item(from: CString, to: CString, dtype: DType)

  /** The walk follows the listings of the new tree and builds both paths; an
      entry one of whose paths ms_strappend refuses is passed over. */
  ghost function RenameWalk(fs: Fs, org: CString, chg: CString): seq<Pair>
    requires Progresses(fs, Spot(chg, Some(org)))
    decreases Depth(chg), if chg in fs then |fs[chg]| + 1 else 0
  {
    if chg in fs then [Folder(org, chg)] + RenameEntries(fs, org, chg, |fs[chg]|) else []
  }

  ghost function RenameEntries(fs: Fs, org: CString, chg: CString, count: nat): seq<Pair>
    requires Progresses(fs, Spot(chg, Some(org))) && chg in fs && count <= |fs[chg]|
    decreases Depth(chg), count
  {
    if count == 0 then []
    else
      var d := fs[chg][count - 1];
      RenameEntries(fs, org, chg, count - 1) + RenameEntry(fs, org, chg, d, count - 1)
  }

  ghost function RenameEntry(fs: Fs, org: CString, chg: CString, d: Dirent, rank: nat): seq<Pair>
    requires Progresses(fs, Spot(chg, Some(org))) && chg in fs && d in fs[chg]
    decreases Depth(chg), rank
  {
    var from, to := StrAppend(org, d.name), StrAppend(chg, d.name);
    if Hidden(d.name) || from.Err? || to.Err? then []
    else if d.dtype.Dir? then
      Deeper(fs, Spot(chg, Some(org)), d);
      RenameWalk(fs, from.value, to.value)
    else [Item(from.value, to.value, d.dtype)]
  }

  predicate Moves(from: CString, to: CString) {
    !StorageOf(from).NoStorage? && !StorageOf(to).NoStorage?
  }

  function FollowOne(env: Env, kernel: CString -> int, b: Both, pair: Pair): (after: Both)
    ensures |after.watches| >= |b.watches| && |after.db| == |b.db|
  {
    match pair
    case Folder(from, to) => b.(watches := Modified(b.watches, from, to, kernel(to)))
    case Item(from, to, dtype) =>
      if dtype.Reg? && Moves(from, to) then b.(db := MoveItem(env, b.db, StorageOf(from), StorageOf(to), from, to))
      else b
  }

  function Follow(env: Env, kernel: CString -> int, b: Both, pairs: seq<Pair>): (after: Both)
    ensures |after.watches| >= |b.watches| && |after.db| == |b.db|
  {
    if pairs == [] then b
    else FollowOne(env, kernel, Follow(env, kernel, b, pairs[..|pairs| - 1]), pairs[|pairs| - 1])
  }

  lemma {:induction false} FollowConcat(env: Env, kernel: CString -> int, b: Both, s: seq<Pair>, t: seq<Pair>)
    ensures Follow(env, kernel, b, s + t) == Follow(env, kernel, Follow(env, kernel, b, s), t)
    decreases |t|
  {
    if t == [] {
      assert s + t == s;
    } else {
      assert (s + t)[..|s + t| - 1] == s + t[..|t| - 1];
      FollowConcat(env, kernel, b, s, t[..|t| - 1]);
    }
  }

  lemma FollowSingle(env: Env, kernel: CString -> int, b: Both, pair: Pair)
    ensures Follow(env, kernel, b, [pair]) == FollowOne(env, kernel, b, pair)
  {
    assert [pair][..0] == [];
  }

  /** The state when the first `j` entries of the new directory are done. */
  ghost function FollowedUpTo(
      env: Env, kernel: CString -> int, b: Both, fs: Fs, org: CString, chg: CString, j: nat): (after: Both)
    requires Progresses(fs, Spot(chg, Some(org))) && chg in fs && j <= |fs[chg]|
    ensures |after.watches| >= |b.watches|
  {
    Follow(env, kernel, b, [Folder(org, chg)] + RenameEntries(fs, org, chg, j))
  }

  lemma FollowFirst(env: Env, kernel: CString -> int, b: Both, fs: Fs, org: CString, chg: CString)
    requires Progresses(fs, Spot(chg, Some(org))) && chg in fs
    ensures FollowedUpTo(env, kernel, b, fs, org, chg, 0) == FollowOne(env, kernel, b, Folder(org, chg))
  {
    FollowSingle(env, kernel, b, Folder(org, chg));
    assert [Folder(org, chg)] + [] == [Folder(org, chg)];
  }

  lemma FollowNext(env: Env, kernel: CString -> int, b: Both, fs: Fs, org: CString, chg: CString, j: nat)
    requires Progresses(fs, Spot(chg, Some(org))) && chg in fs && j < |fs[chg]|
    ensures FollowedUpTo(env, kernel, b, fs, org, chg, j + 1)
         == Follow(env, kernel, FollowedUpTo(env, kernel, b, fs, org, chg, j), RenameEntry(fs, org, chg, fs[chg][j], j))
  {
    var done, entry := [Folder(org, chg)] + RenameEntries(fs, org, chg, j), RenameEntry(fs, org, chg, fs[chg][j], j);
    assert [Folder(org, chg)] + RenameEntries(fs, org, chg, j + 1) == done + entry;
    FollowConcat(env, kernel, b, done, entry);
  }

  // ----- The recursive methods -----

  /** _ms_inoti_scan_renamed_folder: list and database change pair by pair as in the walk. */
  method ScanRenamedFolder(
      fs: Fs, kernel: CString -> int, list: InotiList, svc: MediaService, org_path: CString, chg_path: CString,
      ghost start: Both)
    returns (err: int)
    requires list.Valid() && Holds(list, svc, start) && start.watches != []
    requires Progresses(fs, Spot(chg_path, Some(org_path)))
    modifies list, list.Repr, svc
    ensures list.Valid() && fresh(list.Repr - old(list.Repr))
    ensures err == if chg_path in fs then MS_ERR_NONE else MS_ERR_DIR_OPEN_FAIL
    ensures Holds(list, svc, Follow(svc.env, kernel, start, RenameWalk(fs, org_path, chg_path)))
    decreases Depth(chg_path), if chg_path in fs then |fs[chg_path]| + 1 else 0
  {
    err := if chg_path in fs then MS_ERR_NONE else MS_ERR_DIR_OPEN_FAIL;
    if err == MS_ERR_NONE {
      list.ModifyWatch(org_path, chg_path, kernel(chg_path));
      FollowFirst(svc.env, kernel, start, fs, org_path, chg_path);
      FollowEntries(fs, kernel, list, svc, org_path, chg_path, start);
    }
  }

  /** Its loop. */
  method FollowEntries(
      fs: Fs, kernel: CString -> int, list: InotiList, svc: MediaService, org_path: CString, chg_path: CString,
      ghost start: Both)
    requires chg_path in fs && Progresses(fs, Spot(chg_path, Some(org_path))) && start.watches != []
    requires list.Valid() && Holds(list, svc, FollowedUpTo(svc.env, kernel, start, fs, org_path, chg_path, 0))
    modifies list, list.Repr, svc
    ensures list.Valid() && fresh(list.Repr - old(list.Repr))
    ensures Holds(list, svc, FollowedUpTo(svc.env, kernel, start, fs, org_path, chg_path, |fs[chg_path]|))
    decreases Depth(chg_path), |fs[chg_path]|
  {
    var listing := fs[chg_path];
    var j := 0;
    while j < |listing|
      invariant 0 <= j <= |listing|
      invariant list.Valid() && fresh(list.Repr - old(list.Repr))
      invariant Holds(list, svc, FollowedUpTo(svc.env, kernel, start, fs, org_path, chg_path, j))
    {
      FollowEntry(fs, kernel, list, svc, org_path, chg_path, listing[j], j,
                  FollowedUpTo(svc.env, kernel, start, fs, org_path, chg_path, j));
      FollowNext(svc.env, kernel, start, fs, org_path, chg_path, j);
      j := j + 1;
    }
  }

  /** The body of its loop. */
  method FollowEntry(
      fs: Fs, kernel: CString -> int, list: InotiList, svc: MediaService, org_path: CString, chg_path: CString,
      ent: Dirent, ghost rank: nat, ghost start: Both)
    requires list.Valid() && Holds(list, svc, start) && start.watches != []
    requires Progresses(fs, Spot(chg_path, Some(org_path))) && chg_path in fs && ent in fs[chg_path]
    modifies list, list.Repr, svc
    ensures list.Valid() && fresh(list.Repr - old(list.Repr))
    ensures Holds(list, svc, Follow(svc.env, kernel, start, RenameEntry(fs, org_path, chg_path, ent, rank)))
    decreases Depth(chg_path), rank
  {
    if Hidden(ent.name) {
      return;
    }
    var path_from := StrAppend(org_path, ent.name);
    if path_from.Err? {
      return;
    }
    var path_to := StrAppend(chg_path, ent.name);
    if path_to.Err? {
      return;
    }
    if ent.dtype.Dir? {
      Deeper(fs, Spot(chg_path, Some(org_path)), ent);
      var sub := ScanRenamedFolder(fs, kernel, list, svc, path_from.value, path_to.value, start);
    } else {
      FollowSingle(svc.env, kernel, start, Item(path_from.value, path_to.value, ent.dtype));
      if ent.dtype.Reg? {
        MoveFile(svc, path_from.value, path_to.value);
      }
    }
  }

  /** What is done for a regular file: the item moves when both storages are known. */
  method MoveFile(svc: MediaService, path_from: CString, path_to: CString)
    modifies svc
    ensures svc.plugins == if Moves(path_from, path_to)
                           then MoveItem(svc.env, old(svc.plugins), StorageOf(path_from), StorageOf(path_to),
                                         path_from, path_to)
                           else old(svc.plugins)
  {
    var src_storage, des_storage := StorageOf(path_from), StorageOf(path_to);
    if !src_storage.NoStorage? && !des_storage.NoStorage? {
      var res := svc.MovePath(src_storage, des_storage, path_from, path_to);
    }
  }

  // ----- One walk with two roots -----

  /** The path `p` with `new_root` in place of `old_root`. */
  function Rebased(old_root: CString, new_root: CString, p: CString): CString {
    if old_root <= p then new_root + p[|old_root|..] else p
  }

  function PathIn(step: Step): CString {
    match step
    case Visit(dir) => dir
    case File(path, _) => path
  }

  ghost predicate Inside(chg: CString, steps: seq<Step>) {
    forall k :: 0 <= k < |steps| ==> Under(chg, PathIn(steps[k]))
  }

  /** The pair of a step of the walk over the new tree. */
  function PairOf(org: CString, chg: CString, step: Step): Pair {
    match step
    case Visit(dir) => Folder(Rebased(chg, org, dir), dir)
    case File(path, dtype) => Item(Rebased(chg, org, path), path, dtype)
  }

  function Paired(org: CString, chg: CString, steps: seq<Step>): seq<Pair> {
    if steps == [] then []
    else Paired(org, chg, steps[..|steps| - 1]) + [PairOf(org, chg, steps[|steps| - 1])]
  }

  lemma {:induction false} PairedConcat(org: CString, chg: CString, s: seq<Step>, t: seq<Step>)
    ensures Paired(org, chg, s + t) == Paired(org, chg, s) + Paired(org, chg, t)
    decreases |t|
  {
    if t == [] {
      assert s + t == s;
    } else {
      assert (s + t)[..|s + t| - 1] == s + t[..|t| - 1];
      PairedConcat(org, chg, s, t[..|t| - 1]);
    }
  }

  lemma PairedSingle(org: CString, chg: CString, step: Step)
    ensures Paired(org, chg, [step]) == [PairOf(org, chg, step)]
  {
    assert [step][..0] == [];
  }
}
