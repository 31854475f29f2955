/** Database reconciliation: what a scan leaves in the plugins, why a partial
    rescan after an INVALID equals deleting everything and inserting again,
    and what that means for every run of the scan thread. */
module Reconcile {
  import opened Base
  import opened FileTree
  import opened MediaDb
  import opened Scheduler
  import opened DirScan
  import Traversal
  import Reachable

  /** One file, one plugin: afterwards a path is there iff it was, or it is the
      file and is accepted; an accepted file's record is valid, others are as before. */
  lemma HandledOne(env: Env, db: Db, scanType: ScanType, f: CString, i: nat, p: CString)
    requires NoFailures(env) && WellFiled(db) && i < |db|
    ensures var after: Db := if scanType.Part? then ValidateItem(env, db, f) else InsertItem(env, InsertBatch, db, f);
            && |after| == |db| && WellFiled(after)
            && (p in after[i] <==> p in db[i] || (p == f && env.Accepts(i, f)))
            && (p in after[i] ==>
                  after[i][p] == if p == f && env.Accepts(i, f) then Record(StorageOf(p), true) else db[i][p])
  {
    var after: Db := if scanType.Part? then ValidateItem(env, db, f) else InsertItem(env, InsertBatch, db, f);
    assert !env.fails(InsertBatch, i, f) && !env.fails(SetValidity, i, f);
    forall k: nat, q: CString | k < |after| && q in after[k] ensures after[k][q].storage == StorageOf(q) {
      if env.mime(f) {
        assert after[k] ==
          if scanType.Part? then ValidateOne(env, k, db[k], f) else InsertOne(env, InsertBatch, k, db[k], f);
      }
      if q in db[k] {
        assert db[k][q].storage == StorageOf(q);
      }
    }
    if env.mime(f) {
      assert after[i] ==
        if scanType.Part? then ValidateOne(env, i, db[i], f) else InsertOne(env, InsertBatch, i, db[i], f);
    }
  }

  /** All files, one plugin. */
  lemma {:induction false} HandledAll(env: Env, db: Db, scanType: ScanType, files: seq<CString>, i: nat, p: CString)
    requires NoFailures(env) && WellFiled(db) && i < |db|
    ensures var after := Handled(env, db, scanType, files);
            && |after| == |db| && WellFiled(after)
            && (p in after[i] <==> p in db[i] || (p in files && env.Accepts(i, p)))
            && (p in after[i] ==>
                  after[i][p] == if p in files && env.Accepts(i, p) then Record(StorageOf(p), true) else db[i][p])
  {
    if files != [] {
      var init, f := files[..|files| - 1], files[|files| - 1];
      HandledAll(env, db, scanType, init, i, p);
      HandledOne(env, Handled(env, db, scanType, init), scanType, f, i, p);
      assert p in files <==> p in init || p == f;
    }
  }

  lemma FiledAfter(env: Env, db: Db, scanType: ScanType, files: seq<CString>)
    requires NoFailures(env) && WellFiled(db)
    ensures WellFiled(Handled(env, db, scanType, files)) && |Handled(env, db, scanType, files)| == |db|
  {
    forall i, p | 0 <= i < |db| && p in Handled(env, db, scanType, files)[i]
      ensures Handled(env, db, scanType, files)[i][p].storage == StorageOf(p)
    {
      HandledAll(env, db, scanType, files, i, p);
    }
  }

  /** What a full rescan leaves, power-off or not: the other storages' items, and the accepted files. */
  lemma AllKeysAnyway(env: Env, db: Db, r: Request, files: seq<CString>, off: bool, i: nat, p: CString)
    requires NoFailures(env) && WellFiled(db) && i < |db| && r.scanType.All?
    ensures var after := Effect(env, db, r, files, off);
            && |after| == |db| && WellFiled(after)
            && (p in after[i] <==> (p in db[i] && StorageOf(p) != r.storage) || (p in files && env.Accepts(i, p)))
  {
    var cleared := MediaDb.DeleteAll(env, db, r.storage);
    assert !FailsBy(env, i + 1);
    assert forall k :: 0 <= k < |db| ==> cleared[k] == Without(db[k], r.storage);
    assert WellFiled(cleared);
    HandledAll(env, cleared, All, files, i, p);
  }

  lemma AllKeys(env: Env, db: Db, r: Request, files: seq<CString>, i: nat, p: CString)
    requires NoFailures(env) && WellFiled(db) && i < |db| && r.scanType.All?
    ensures var after := Effect(env, db, r, files, false);
            && |after| == |db| && WellFiled(after)
            && (p in after[i] <==> (p in db[i] && StorageOf(p) != r.storage) || (p in files && env.Accepts(i, p)))
  {
    AllKeysAnyway(env, db, r, files, false, i, p);
  }

  /** When power_off is seen behind a partial rescan nothing is deleted: the old
      items and the accepted files are there, and an old item that is not one of
      these is as valid as before. */
  lemma PartCutOff(env: Env, db: Db, r: Request, files: seq<CString>, i: nat, p: CString)
    requires NoFailures(env) && WellFiled(db) && i < |db| && r.scanType.Part?
    ensures var after := Effect(env, db, r, files, true);
            && |after| == |db|
            && (p in after[i] <==> p in db[i] || (p in files && env.Accepts(i, p)))
            && (p in after[i] ==> (after[i][p].valid <==>
                  (p in files && env.Accepts(i, p)) || (p in db[i] && db[i][p].valid)))
  {
    HandledAll(env, db, Part, files, i, p);
  }

  /** What a partial rescan leaves: besides these also what was still valid. */
  lemma PartKeys(env: Env, db: Db, r: Request, files: seq<CString>, i: nat, p: CString)
    requires NoFailures(env) && WellFiled(db) && i < |db| && r.scanType.Part?
    ensures var after := Effect(env, db, r, files, false);
            && |after| == |db| && WellFiled(after)
            && (p in after[i] <==>
                  (p in db[i] && (StorageOf(p) != r.storage || db[i][p].valid)) || (p in files && env.Accepts(i, p)))
  {
    var mid := Handled(env, db, Part, files);
    FiledAfter(env, db, Part, files);
    HandledAll(env, db, Part, files, i, p);
    assert !FailsBy(env, i + 1);
    assert forall k :: 0 <= k < |db| ==> Effect(env, db, r, files, false)[k] == WithoutInvalid(mid[k], r.storage);
  }

  /** PART equals ALL: the two rescans leave the same paths in every plugin
      exactly when every item of the storage that is valid beforehand is one
      of the accepted files; in particular when an INVALID came first. */
  lemma PartEqualsAll(env: Env, db: Db, storage: Storage, id: nat, files: seq<CString>)
    requires NoFailures(env) && WellFiled(db)
    ensures var part, all := Request(id, Part, storage), Request(id, All, storage);
            (forall i :: 0 <= i < |db| ==>
               Effect(env, db, part, files, false)[i].Keys == Effect(env, db, all, files, false)[i].Keys)
            <==> NoStrayValid(env, db, storage, files)
  {
    var part := Effect(env, db, Request(id, Part, storage), files, false);
    var all := Effect(env, db, Request(id, All, storage), files, false);
    forall i, p | 0 <= i < |db|
      ensures (p in part[i] <==> p in all[i]) <==> !(p in db[i] && Stray(env, db[i], i, storage, files, p))
    {
      PartKeys(env, db, Request(id, Part, storage), files, i, p);
      AllKeys(env, db, Request(id, All, storage), files, i, p);
    }
    if NoStrayValid(env, db, storage, files) {
      forall i | 0 <= i < |db| ensures part[i].Keys == all[i].Keys {
        forall p ensures p in part[i].Keys <==> p in all[i].Keys {
          assert (p in part[i] <==> p in all[i]) <==> !(p in db[i] && Stray(env, db[i], i, storage, files, p));
        }
      }
    } else {
      var i, p :| 0 <= i < |db| && p in db[i] && Stray(env, db[i], i, storage, files, p);
      assert p in part[i].Keys <==> p !in all[i].Keys;
    }
  }

  /** A valid item of the storage that the scan would not insert. */
  predicate Stray(env: Env, m: Plugin, i: nat, storage: Storage, files: seq<CString>, p: CString)
    requires p in m
  {
    StorageOf(p) == storage && m[p].valid && !(p in files && env.Accepts(i, p))
  }

  ghost predicate NoStrayValid(env: Env, db: Db, storage: Storage, files: seq<CString>) {
    forall i, p :: 0 <= i < |db| && p in db[i] ==> !Stray(env, db[i], i, storage, files, p)
  }

  ghost predicate AllInvalid(db: Db, storage: Storage) {
    forall i, p :: 0 <= i < |db| && p in db[i] && StorageOf(p) == storage ==> !db[i][p].valid
  }

  /** An item that is still valid although its file is gone survives a partial
      rescan and not a full one. */
  lemma ValidItemWithoutFile(env: Env, p: CString)
    requires NoFailures(env) && StorageOf(p).Internal?
    ensures var db: Db := [map[p := Record(Internal, true)]];
            var part, all := Request(0, Part, Internal), Request(0, All, Internal);
            p in Effect(env, db, part, [], false)[0] && p !in Effect(env, db, all, [], false)[0]
            && !NoStrayValid(env, db, Internal, [])
  {
    var db: Db := [map[p := Record(Internal, true)]];
    PartKeys(env, db, Request(0, Part, Internal), [], 0, p);
    AllKeys(env, db, Request(0, All, Internal), [], 0, p);
    assert p in db[0] && Stray(env, db[0], 0, Internal, [], p);
  }

  /** ms_invalidate_all_items marks exactly the items of its storage. */
  lemma InvalidateMarks(env: Env, db: Db, storage: Storage)
    requires NoFailures(env) && WellFiled(db)
    ensures var after := InvalidateAll(env, db, storage);
            && |after| == |db| && WellFiled(after) && AllInvalid(after, storage)
            && forall i :: 0 <= i < |db| ==>
                 after[i].Keys == db[i].Keys
                 && forall p :: p in db[i] && StorageOf(p) != storage ==> after[i][p] == db[i][p]
  {
    var after := InvalidateAll(env, db, storage);
    assert forall i :: 0 <= i < |db| ==> after[i] == Invalidated(db[i], storage);
  }

  // ----- The files a complete scan sees -----

  /** A visible entry of one of the kinds that have the DT_REG bit, with that path. */
  predicate FileEntry(dir: CString, d: Dirent, p: CString) {
    && !Hidden(d.name) && (d.dtype.Reg? || d.dtype.Lnk? || d.dtype.Sock? || d.dtype.Wht?)
    && StrAppend(dir, d.name) == Ok(p)
  }

  /** A file of a reachable directory, under the path the scan builds for it. */
  ghost predicate FileReachable(fs: Fs, root: CString, p: CString) {
    exists dir, d :: Reachable.Reachable(fs, root, dir) && d in Reachable.Listing(fs, dir) && FileEntry(dir, d, p)
  }

  lemma {:induction false} FilesAmongMembers(dir: CString, listing: seq<Dirent>, count: nat, p: CString)
    requires count <= |listing|
    ensures p in FilesAmong(dir, listing, count) <==>
            exists i :: 0 <= i < count && FileEntry(dir, listing[i], p)
  {
    if count > 0 {
      FilesAmongMembers(dir, listing, count - 1, p);
    }
  }

  lemma FilesOfMembers(fs: Fs, dir: CString, p: CString)
    ensures p in FilesOf(fs, dir) <==>
            exists d :: d in Reachable.Listing(fs, dir) && FileEntry(dir, d, p)
  {
    if dir in fs {
      FilesAmongMembers(dir, fs[dir], |fs[dir]|, p);
    }
  }

  lemma {:induction false} FilesInMembers(fs: Fs, dirs: seq<CString>, p: CString)
    ensures p in FilesIn(fs, dirs) <==> exists dir :: dir in dirs && p in FilesOf(fs, dir)
  {
    if dirs != [] {
      FilesInMembers(fs, dirs[..|dirs| - 1], p);
    }
  }

  /** A complete scan sees exactly the files of the reachable directories. */
  lemma ScanSeesReachableFiles(fs: Fs, root: CString, p: CString)
    requires |root| <= MS_FILE_PATH_LEN_MAX
    ensures p in FilesIn(fs, Traversal.Expected(fs, [], root)) <==> FileReachable(fs, root, p)
  {
    var dirs := Traversal.Expected(fs, [], root);
    Reachable.ScanListIsReachableSet(fs, root);
    FilesInMembers(fs, dirs, p);
    if p in FilesIn(fs, dirs) {
      var dir :| dir in dirs && p in FilesOf(fs, dir);
      FilesOfMembers(fs, dir, p);
    }
    if FileReachable(fs, root, p) {
      var dir, d :| Reachable.Reachable(fs, root, dir) && d in Reachable.Listing(fs, dir) && FileEntry(dir, d, p);
      FilesOfMembers(fs, dir, p);
    }
  }

  /** In particular every visible regular file of a reachable directory whose path
      is accepted is handled, and an entry that is a directory is not. */
  lemma RegularFilesAreSeen(fs: Fs, root: CString, dir: CString, d: Dirent)
    requires |root| <= MS_FILE_PATH_LEN_MAX && Reachable.Reachable(fs, root, dir) && d in Reachable.Listing(fs, dir)
    requires d.dtype.Reg? && !Hidden(d.name) && StrAppend(dir, d.name).Ok?
    ensures StrAppend(dir, d.name).value in FilesIn(fs, Traversal.Expected(fs, [], root))
  {
    assert FileEntry(dir, d, StrAppend(dir, d.name).value);
    ScanSeesReachableFiles(fs, root, StrAppend(dir, d.name).value);
  }

  lemma DirectoriesAreNotSeen(fs: Fs, root: CString, p: CString)
    requires |root| <= MS_FILE_PATH_LEN_MAX
    requires forall dir, d ::
               Reachable.Reachable(fs, root, dir) && d in Reachable.Listing(fs, dir) ==>
                 StrAppend(dir, d.name) == Ok(p) ==> d.dtype.Dir? || Hidden(d.name)
    ensures p !in FilesIn(fs, Traversal.Expected(fs, [], root))
  {
    ScanSeesReachableFiles(fs, root, p);
  }

  /** End to end: a complete partial rescan of a storage whose items are all
      marked invalid leaves in each plugin, for that storage, exactly the
      reachable files that the plugin accepts. */
  lemma RescanMirrorsTheTree(env: Env, db: Db, r: Request, fs: Fs, root: CString, i: nat, p: CString)
    requires NoFailures(env) && WellFiled(db) && i < |db| && |root| <= MS_FILE_PATH_LEN_MAX
    requires r.scanType.All? || (r.scanType.Part? && AllInvalid(db, r.storage))
    requires StorageOf(p) == r.storage
    ensures var files := FilesIn(fs, Traversal.Expected(fs, [], root));
            p in Effect(env, db, r, files, false)[i] <==> FileReachable(fs, root, p) && env.Accepts(i, p)
  {
    ScanSeesReachableFiles(fs, root, p);
    var files := FilesIn(fs, Traversal.Expected(fs, [], root));
    if r.scanType.All? {
      AllKeys(env, db, r, files, i, p);
    } else {
      PartKeys(env, db, r, files, i, p);
    }
  }
}
