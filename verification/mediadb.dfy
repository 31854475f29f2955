/** The multi-plugin database operations of media-server-db-svc.c. A plugin is
    a table from path to record; what the foreign calls decide is an Env. */
module MediaDb {
  import opened Base

  datatype Record = Record(storage: Storage, valid: bool)

  type Plugin = map<CString, Record>

  type Db = seq<Plugin>

  /** The plugin calls that can fail; a call that fails leaves its table alone. */
  datatype Op = InsertBatch | InsertNow | SetValidity | Delete | Move

  /** `mime`: a MIME type is found; `category`: check_item of that plugin
      accepts the path; `drm`/`drmRegisters`: the DRM calls. */
  datatype Env = Env(
    mime: CString -> bool, category: (nat, CString) -> bool, fails: (Op, nat, CString) -> bool,
    bulkFails: nat -> bool, drm: CString -> bool, drmRegisters: CString -> bool)
  {
    predicate Accepts(i: nat, path: CString) {
      mime(path) && category(i, path)
    }
  }

  ghost predicate NoFailures(env: Env) {
    && (forall op, i, p :: !env.fails(op, i, p))
    && (forall i :: !env.bulkFails(i))
  }

  /** check_item_exist */
  predicate Exists(m: Plugin, path: CString, storage: Storage) {
    path in m && m[path].storage == storage
  }

  /** Records are filed under the storage of their path. */
  ghost predicate WellFiled(db: Db) {
    forall i, p :: 0 <= i < |db| && p in db[i] ==> db[i][p].storage == StorageOf(p)
  }

  function Put(m: Plugin, path: CString, record: Record): Plugin {
    m[path := record]
  }

  // ----- One plugin's part of each operation -----

  function InsertOne(env: Env, op: Op, i: nat, m: Plugin, path: CString): Plugin {
    if env.category(i, path) && !env.fails(op, i, path) then Put(m, path, Record(StorageOf(path), true)) else m
  }

  function InsertErr(env: Env, op: Op, i: nat, path: CString): int {
    if env.category(i, path) && env.fails(op, i, path) then MS_ERR_DB_INSERT_RECORD_FAIL else MS_ERR_NONE
  }

  function ValidateOne(env: Env, i: nat, m: Plugin, path: CString): Plugin {
    if !Exists(m, path, StorageOf(path)) then InsertOne(env, InsertBatch, i, m, path)
    else if env.category(i, path) && !env.fails(SetValidity, i, path) then Put(m, path, m[path].(valid := true))
    else m
  }

  function ValidateErr(env: Env, i: nat, m: Plugin, path: CString): int {
    if !Exists(m, path, StorageOf(path)) then InsertErr(env, InsertBatch, i, path)
    else if env.category(i, path) && env.fails(SetValidity, i, path) then MS_ERR_DB_UPDATE_RECORD_FAIL
    else MS_ERR_NONE
  }

  function DeleteOne(env: Env, i: nat, m: Plugin, path: CString): Plugin {
    if Exists(m, path, StorageOf(path)) && !env.fails(Delete, i, path) then m - {path} else m
  }

  function MoveOne(
      env: Env, i: nat, m: Plugin, src_store: Storage, dst_store: Storage, src: CString, dst: CString): Plugin
  {
    if env.category(i, dst) && !env.fails(Move, i, src) && Exists(m, src, src_store)
    then Put(m - {src}, dst, Record(dst_store, m[src].valid)) else m
  }

  function Invalidated(m: Plugin, storage: Storage): Plugin {
    map p | p in m :: if m[p].storage == storage then m[p].(valid := false) else m[p]
  }

  function Without(m: Plugin, storage: Storage): Plugin {
    map p | p in m && m[p].storage != storage :: m[p]
  }

  function WithoutInvalid(m: Plugin, storage: Storage): Plugin {
    map p | p in m && !(m[p].storage == storage && !m[p].valid) :: m[p]
  }

  // ----- All plugins -----

  /** Apply a change to every plugin. */
  function Each(db: Db, change: (nat, Plugin) -> Plugin): (r: Db)
    ensures |r| == |db|
    ensures forall i {:trigger r[i]} :: 0 <= i < |db| ==> r[i] == change(i, db[i])
  {
    seq(|db|, i requires 0 <= i < |db| => change(i, db[i]))
  }

  /** The loops that return at the first failure: the plugins before it are changed. */
  function EachUntil(env: Env, db: Db, change: Plugin -> Plugin): (r: Db)
    ensures |r| == |db|
    ensures forall i {:trigger r[i]} :: 0 <= i < |db| ==>
              r[i] == if FailsBy(env, i + 1) then db[i] else change(db[i])
  {
    seq(|db|, i requires 0 <= i < |db| => if FailsBy(env, i + 1) then db[i] else change(db[i]))
  }

  predicate FailsBy(env: Env, n: nat) {
    exists i :: 0 <= i < n && env.bulkFails(i)
  }

  /** In a loop over the plugins the last error wins. */
  function LastInsertError(env: Env, op: Op, path: CString, n: nat): int {
    if n == 0 then MS_ERR_NONE
    else if InsertErr(env, op, n - 1, path) != MS_ERR_NONE then InsertErr(env, op, n - 1, path)
    else LastInsertError(env, op, path, n - 1)
  }

  function LastValidateError(env: Env, db: Db, path: CString, n: nat): int
    requires n <= |db|
  {
    if n == 0 then MS_ERR_NONE
    else if ValidateErr(env, n - 1, db[n - 1], path) != MS_ERR_NONE then ValidateErr(env, n - 1, db[n - 1], path)
    else LastValidateError(env, db, path, n - 1)
  }

  /** The result is the error of the last plugin that failed. */
  lemma {:induction false} LastErrorTells(env: Env, db: Db, path: CString, n: nat)
    requires n <= |db|
    ensures var res := LastValidateError(env, db, path, n);
            if forall k :: 0 <= k < n ==> !ValidateFails(env, db, path, k) then res == MS_ERR_NONE
            else exists k :: 0 <= k < n && ValidateFails(env, db, path, k)
                             && (forall j :: k < j < n ==> !ValidateFails(env, db, path, j))
                             && res == if path in db[k] && db[k][path].storage == StorageOf(path)
                                       then MS_ERR_DB_UPDATE_RECORD_FAIL else MS_ERR_DB_INSERT_RECORD_FAIL
  {
    if n > 0 {
      LastErrorTells(env, db, path, n - 1);
      assert ValidateErr(env, n - 1, db[n - 1], path) != MS_ERR_NONE <==> ValidateFails(env, db, path, n - 1);
    }
  }

  /** The plugin call that is needed for this plugin fails. */
  predicate ValidateFails(env: Env, db: Db, path: CString, k: nat)
    requires k < |db|
  {
    env.category(k, path)
    && env.fails(if path in db[k] && db[k][path].storage == StorageOf(path) then SetValidity else InsertBatch, k, path)
  }

  lemma {:induction false} NoInsertError(env: Env, op: Op, path: CString, n: nat)
    ensures LastInsertError(env, op, path, n) == MS_ERR_NONE
       <==> forall i :: 0 <= i < n && env.category(i, path) ==> !env.fails(op, i, path)
  {
    if n > 0 {
      NoInsertError(env, op, path, n - 1);
    }
  }

  function ValidateItem(env: Env, db: Db, path: CString): Db {
    if env.mime(path) then Each(db, (i, m) => ValidateOne(env, i, m, path)) else db
  }

  function InsertItem(env: Env, op: Op, db: Db, path: CString): Db {
    if env.mime(path) then Each(db, (i, m) => InsertOne(env, op, i, m, path)) else db
  }

  function DeleteItem(env: Env, db: Db, path: CString): Db {
    Each(db, (i, m) => DeleteOne(env, i, m, path))
  }

  function MoveItem(env: Env, db: Db, src_store: Storage, dst_store: Storage, src: CString, dst: CString): Db {
    if env.mime(dst) then Each(db, (i, m) => MoveOne(env, i, m, src_store, dst_store, src, dst)) else db
  }

  function InvalidateAll(env: Env, db: Db, storage: Storage): Db {
    Each(db, (i, m) => if env.bulkFails(i) then m else Invalidated(m, storage))
  }

  function DeleteAll(env: Env, db: Db, storage: Storage): Db {
    EachUntil(env, db, m => Without(m, storage))
  }

  function DeleteInvalid(env: Env, db: Db, storage: Storage): Db {
    EachUntil(env, db, m => WithoutInvalid(m, storage))
  }

  /** ms_check_exist: every plugin must have the item, whatever its category. */
  predicate InAll(db: Db, path: CString) {
    forall i :: 0 <= i < |db| ==> Exists(db[i], path, StorageOf(path))
  }

  // ----- ms_register_file, without its synchronisation -----

  function Registered(env: Env, db: Db, path: CString): Db {
    if InAll(db, path) then db else InsertItem(env, InsertNow, db, path)
  }

  // ----- What one call leaves in each plugin, whatever else fails -----

  lemma InsertedAt(env: Env, op: Op, db: Db, path: CString, i: nat, q: CString)
    requires i < |db|
    ensures var after := InsertItem(env, op, db, path);
            var done := env.mime(path) && env.category(i, path) && !env.fails(op, i, path);
            && |after| == |db|
            && (q in after[i] <==> q in db[i] || (q == path && done))
            && (q in after[i] ==> after[i][q] == if q == path && done then Record(StorageOf(path), true) else db[i][q])
  {
  }

  /** A scan inserts what is missing from a plugin and makes valid what is there. */
  lemma ValidatedAt(env: Env, db: Db, path: CString, i: nat, q: CString)
    requires i < |db|
    ensures var after := ValidateItem(env, db, path);
            var there := path in db[i] && db[i][path].storage == StorageOf(path);
            var done := env.mime(path) && env.category(i, path)
                        && !env.fails(if there then SetValidity else InsertBatch, i, path);
            && |after| == |db|
            && (q in after[i] <==> q in db[i] || (q == path && done))
            && (q in after[i] ==> after[i][q] == if q == path && done then Record(StorageOf(path), true) else db[i][q])
  {
  }

  lemma DeletedAt(env: Env, db: Db, path: CString, i: nat, q: CString)
    requires i < |db|
    ensures var after := DeleteItem(env, db, path);
            var done := path in db[i] && db[i][path].storage == StorageOf(path) && !env.fails(Delete, i, path);
            && |after| == |db|
            && (q in after[i] <==> q in db[i] && !(q == path && done))
            && (q in after[i] ==> after[i][q] == db[i][q])
  {
  }

  /** The record moves with its validity, and is filed under the new storage. */
  lemma MovedAt(
      env: Env, db: Db, src_store: Storage, dst_store: Storage, src: CString, dst: CString, i: nat, q: CString)
    requires i < |db|
    ensures var after := MoveItem(env, db, src_store, dst_store, src, dst);
            var done := env.mime(dst) && env.category(i, dst) && !env.fails(Move, i, src)
                        && src in db[i] && db[i][src].storage == src_store;
            && |after| == |db|
            && (q in after[i] <==> if done then q == dst || (q in db[i] && q != src) else q in db[i])
            && (q in after[i] ==>
                  after[i][q] == if done && q == dst then Record(dst_store, db[i][src].valid) else db[i][q])
  {
  }

  /** A file that every plugin has is left alone; of any other one the plugins
      that accept it get a new record. */
  lemma RegisteredAt(env: Env, db: Db, path: CString, i: nat, q: CString)
    requires i < |db|
    ensures var after := Registered(env, db, path);
            var known := forall k :: 0 <= k < |db| ==> path in db[k] && db[k][path].storage == StorageOf(path);
            var done := !known && env.mime(path) && env.category(i, path) && !env.fails(InsertNow, i, path);
            && |after| == |db| && (known ==> after == db)
            && (q in after[i] <==> q in db[i] || (q == path && done))
            && (q in after[i] ==> after[i][q] == if q == path && done then Record(StorageOf(path), true) else db[i][q])
  {
    var known := forall k :: 0 <= k < |db| ==> path in db[k] && db[k][path].storage == StorageOf(path);
    assert known <==> InAll(db, path) by {
      assert forall k :: 0 <= k < |db| ==>
        (Exists(db[k], path, StorageOf(path)) <==> path in db[k] && db[k][path].storage == StorageOf(path));
    }
    InsertedAt(env, InsertNow, db, path, i, q);
  }

  /** The two deletions of a whole storage stop at the first plugin that fails:
      those before it have lost their items, it and those behind it have not. */
  lemma StopsAtFirstFailure(env: Env, db: Db, storage: Storage, first: nat, i: nat, q: CString)
    requires i < |db| && first <= |db| && (forall k :: 0 <= k < first ==> !env.bulkFails(k))
    requires first < |db| ==> env.bulkFails(first)
    ensures var all, invalid := DeleteAll(env, db, storage), DeleteInvalid(env, db, storage);
            && |all| == |invalid| == |db|
            && (i >= first ==> all[i] == invalid[i] == db[i])
            && (i < first ==>
                  && (q in all[i] <==> q in db[i] && db[i][q].storage != storage)
                  && (q in invalid[i] <==> q in db[i] && (db[i][q].storage != storage || db[i][q].valid))
                  && (q in all[i] ==> all[i][q] == db[i][q]) && (q in invalid[i] ==> invalid[i][q] == db[i][q]))
  {
    assert FailsBy(env, i + 1) <==> i >= first;
    assert DeleteAll(env, db, storage)[i] == if i >= first then db[i] else Without(db[i], storage);
    assert DeleteInvalid(env, db, storage)[i] == if i >= first then db[i] else WithoutInvalid(db[i], storage);
  }

  /** Invalidation goes on: only the plugin that fails keeps its items valid. */
  lemma InvalidatedAt(env: Env, db: Db, storage: Storage, i: nat, q: CString)
    requires i < |db|
    ensures var after := InvalidateAll(env, db, storage);
            && |after| == |db| && (q in after[i] <==> q in db[i])
            && (q in after[i] ==>
                  && after[i][q].storage == db[i][q].storage
                  && after[i][q].valid == (db[i][q].valid && (env.bulkFails(i) || db[i][q].storage != storage)))
  {
    assert InvalidateAll(env, db, storage)[i] == if env.bulkFails(i) then db[i] else Invalidated(db[i], storage);
  }

  class MediaService {
    const env: Env
    var plugins: Db

    constructor (env: Env, plugins: Db)
      ensures this.env == env && this.plugins == plugins
    {
      this.env, this.plugins := env, plugins;
    }

    /** ms_validate_item */
    method Validate(path: CString) returns (res: int)
      modifies this
      ensures plugins == ValidateItem(env, old(plugins), path)
      ensures res == if !env.mime(path) then MS_ERR_MIME_GET_FAIL
                     else LastValidateError(env, old(plugins), path, |old(plugins)|)
    {
      if !env.mime(path) {
        return MS_ERR_MIME_GET_FAIL;
      }
      res := MS_ERR_NONE;
      var storage_type := StorageOf(path);
      ghost var before := plugins;
      for lib_index := 0 to |plugins|
        invariant |plugins| == |before|
        invariant forall k :: 0 <= k < lib_index ==> plugins[k] == ValidateOne(env, k, before[k], path)
        invariant forall k :: lib_index <= k < |plugins| ==> plugins[k] == before[k]
        invariant res == LastValidateError(env, before, path, lib_index)
      {
        var m := plugins[lib_index];
        if env.category(lib_index, path) {
          if !Exists(m, path, storage_type) {
            if env.fails(InsertBatch, lib_index, path) {
              res := MS_ERR_DB_INSERT_RECORD_FAIL;
            } else {
              plugins := plugins[lib_index := Put(m, path, Record(storage_type, true))];
            }
          } else {
            if env.fails(SetValidity, lib_index, path) {
              res := MS_ERR_DB_UPDATE_RECORD_FAIL;
            } else {
              plugins := plugins[lib_index := Put(m, path, m[path].(valid := true))];
            }
          }
        }
      }
      assert plugins == ValidateItem(env, before, path);
    }

    /** ms_insert_item: the immediate insertion. */
    method Insert(path: CString) returns (res: int)
      modifies this
      ensures plugins == InsertItem(env, InsertNow, old(plugins), path)
      ensures res == if !env.mime(path) then MS_ERR_MIME_GET_FAIL
                     else LastInsertError(env, InsertNow, path, |old(plugins)|)
    {
      if !env.mime(path) {
        return MS_ERR_MIME_GET_FAIL;
      }
      res := InsertLoop(InsertNow, path);
    }

    /** ms_insert_item_batch: for a DRM file the result is that of the DRM registration alone. */
    method InsertInBatch(path: CString) returns (res: int)
      modifies this
      ensures plugins == InsertItem(env, InsertBatch, old(plugins), path)
      ensures res == if !env.mime(path) then MS_ERR_MIME_GET_FAIL
                     else if env.drm(path) then
                       (if env.drmRegisters(path) then MS_ERR_NONE else MS_ERR_DRM_REGISTER_FAIL)
                     else LastInsertError(env, InsertBatch, path, |old(plugins)|)
    {
      if !env.mime(path) {
        return MS_ERR_MIME_GET_FAIL;
      }
      res := InsertLoop(InsertBatch, path);
      if env.drm(path) {
        res := if env.drmRegisters(path) then MS_ERR_NONE else MS_ERR_DRM_REGISTER_FAIL;
      }
    }

    /** The loop that the two insertions share. */
    method InsertLoop(op: Op, path: CString) returns (res: int)
      modifies this
      ensures plugins == Each(old(plugins), (i, m) => InsertOne(env, op, i, m, path))
      ensures res == LastInsertError(env, op, path, |old(plugins)|)
    {
      res := MS_ERR_NONE;
      var storage_type := StorageOf(path);
      ghost var before := plugins;
      for lib_index := 0 to |plugins|
        invariant |plugins| == |before|
        invariant forall k :: 0 <= k < lib_index ==> plugins[k] == InsertOne(env, op, k, before[k], path)
        invariant forall k :: lib_index <= k < |plugins| ==> plugins[k] == before[k]
        invariant res == LastInsertError(env, op, path, lib_index)
      {
        if env.category(lib_index, path) {
          if env.fails(op, lib_index, path) {
            res := MS_ERR_DB_INSERT_RECORD_FAIL;
          } else {
            plugins := plugins[lib_index := Put(plugins[lib_index], path, Record(storage_type, true))];
          }
        }
      }
      assert plugins == Each(before, (i, m) => InsertOne(env, op, i, m, path));
    }

    /** ms_delete_item: an absent item counts as an error, too. */
    method DeletePath(path: CString) returns (res: int)
      modifies this
      ensures plugins == DeleteItem(env, old(plugins), path)
      ensures res == if exists i :: 0 <= i < |old(plugins)| &&
                         (!Exists(old(plugins)[i], path, StorageOf(path)) || env.fails(Delete, i, path))
                     then MS_ERR_DB_DELETE_RECORD_FAIL else MS_ERR_NONE
    {
      res := MS_ERR_NONE;
      var storage_type := StorageOf(path);
      ghost var before := plugins;
      for lib_index := 0 to |plugins|
        invariant |plugins| == |before|
        invariant forall k :: 0 <= k < lib_index ==> plugins[k] == DeleteOne(env, k, before[k], path)
        invariant forall k :: lib_index <= k < |plugins| ==> plugins[k] == before[k]
        invariant res == if exists k :: 0 <= k < lib_index &&
                             (!Exists(before[k], path, storage_type) || env.fails(Delete, k, path))
                         then MS_ERR_DB_DELETE_RECORD_FAIL else MS_ERR_NONE
      {
        if Exists(plugins[lib_index], path, storage_type) {
          if env.fails(Delete, lib_index, path) {
            res := MS_ERR_DB_DELETE_RECORD_FAIL;
          } else {
            plugins := plugins[lib_index := plugins[lib_index] - {path}];
          }
        } else {
          res := MS_ERR_DB_DELETE_RECORD_FAIL;
        }
      }
      assert plugins == DeleteItem(env, before, path);
    }

    /** ms_move_item */
    method MovePath(src_store: Storage, dst_store: Storage, src_path: CString, dst_path: CString) returns (res: int)
      modifies this
      ensures plugins == MoveItem(env, old(plugins), src_store, dst_store, src_path, dst_path)
      ensures res == if !env.mime(dst_path) then MS_ERR_MIME_GET_FAIL
                     else if exists i :: 0 <= i < |old(plugins)| && env.category(i, dst_path)
                                         && env.fails(Move, i, src_path)
                     then MS_ERR_DB_UPDATE_RECORD_FAIL else MS_ERR_NONE
    {
      if !env.mime(dst_path) {
        return MS_ERR_MIME_GET_FAIL;
      }
      res := MS_ERR_NONE;
      ghost var before := plugins;
      for lib_index := 0 to |plugins|
        invariant |plugins| == |before|
        invariant forall k :: 0 <= k < lib_index ==>
                    plugins[k] == MoveOne(env, k, before[k], src_store, dst_store, src_path, dst_path)
        invariant forall k :: lib_index <= k < |plugins| ==> plugins[k] == before[k]
        invariant res == if exists k :: 0 <= k < lib_index && env.category(k, dst_path) && env.fails(Move, k, src_path)
                         then MS_ERR_DB_UPDATE_RECORD_FAIL else MS_ERR_NONE
      {
        if env.category(lib_index, dst_path) {
          var m := plugins[lib_index];
          if env.fails(Move, lib_index, src_path) {
            res := MS_ERR_DB_UPDATE_RECORD_FAIL;
          } else if Exists(m, src_path, src_store) {
            plugins := plugins[lib_index := Put(m - {src_path}, dst_path, Record(dst_store, m[src_path].valid))];
          }
        }
      }
      assert plugins == MoveItem(env, before, src_store, dst_store, src_path, dst_path);
    }

    /** ms_invalidate_all_items: goes on after a failure. */
    method InvalidateAllItems(store_type: Storage) returns (res: int)
      modifies this
      ensures plugins == InvalidateAll(env, old(plugins), store_type)
      ensures res == if FailsBy(env, |old(plugins)|) then MS_ERR_DB_UPDATE_RECORD_FAIL else MS_ERR_NONE
    {
      res := MS_ERR_NONE;
      ghost var before := plugins;
      for lib_index := 0 to |plugins|
        invariant |plugins| == |before|
        invariant forall k :: 0 <= k < lib_index ==>
                    plugins[k] == if env.bulkFails(k) then before[k] else Invalidated(before[k], store_type)
        invariant forall k :: lib_index <= k < |plugins| ==> plugins[k] == before[k]
        invariant res == if FailsBy(env, lib_index) then MS_ERR_DB_UPDATE_RECORD_FAIL else MS_ERR_NONE
      {
        if env.bulkFails(lib_index) {
          res := MS_ERR_DB_UPDATE_RECORD_FAIL;
        } else {
          plugins := plugins[lib_index := Invalidated(plugins[lib_index], store_type)];
        }
      }
      assert plugins == InvalidateAll(env, before, store_type);
    }

    /** ms_delete_all_items: returns at the first failure. */
    method DeleteAllItems(store_type: Storage) returns (res: bool)
      modifies this
      ensures plugins == DeleteAll(env, old(plugins), store_type)
      ensures res == !FailsBy(env, |old(plugins)|)
    {
      ghost var before := plugins;
      var lib_index := 0;
      while lib_index < |plugins|
        invariant |plugins| == |before| && 0 <= lib_index <= |plugins|
        invariant !FailsBy(env, lib_index)
        invariant forall k :: 0 <= k < lib_index ==> plugins[k] == Without(before[k], store_type)
        invariant forall k :: lib_index <= k < |plugins| ==> plugins[k] == before[k]
      {
        if env.bulkFails(lib_index) {
          assert plugins == DeleteAll(env, before, store_type);
          return false;
        }
        plugins := plugins[lib_index := Without(plugins[lib_index], store_type)];
        lib_index := lib_index + 1;
      }
      assert plugins == DeleteAll(env, before, store_type);
      res := true;
    }

    /** ms_delete_invalid_items: returns at the first failure. */
    method DeleteInvalidItems(store_type: Storage) returns (res: bool)
      modifies this
      ensures plugins == DeleteInvalid(env, old(plugins), store_type)
      ensures res == !FailsBy(env, |old(plugins)|)
    {
      ghost var before := plugins;
      var lib_index := 0;
      while lib_index < |plugins|
        invariant |plugins| == |before| && 0 <= lib_index <= |plugins|
        invariant !FailsBy(env, lib_index)
        invariant forall k :: 0 <= k < lib_index ==> plugins[k] == WithoutInvalid(before[k], store_type)
        invariant forall k :: lib_index <= k < |plugins| ==> plugins[k] == before[k]
      {
        if env.bulkFails(lib_index) {
          assert plugins == DeleteInvalid(env, before, store_type);
          return false;
        }
        plugins := plugins[lib_index := WithoutInvalid(plugins[lib_index], store_type)];
        lib_index := lib_index + 1;
      }
      assert plugins == DeleteInvalid(env, before, store_type);
      res := true;
    }

    /** ms_check_exist */
    method CheckExist(path: CString) returns (res: int)
      ensures res == if InAll(plugins, path) then MS_ERR_NONE else MS_ERR_DB_EXIST_ITEM_FAIL
    {
      var storage_type := StorageOf(path);
      for lib_index := 0 to |plugins|
        invariant forall k :: 0 <= k < lib_index ==> Exists(plugins[k], path, storage_type)
      {
        if !Exists(plugins[lib_index], path, storage_type) {
          return MS_ERR_DB_EXIST_ITEM_FAIL;
        }
      }
      res := MS_ERR_NONE;
    }

    /** ms_register_file for one thread that finds nobody else registering the
        path. Success means that the last plugin accepting the path has it. */
    method RegisterFile(path: CString) returns (res: int)
      modifies this
      ensures plugins == Registered(env, old(plugins), path)
      ensures res == if InAll(old(plugins), path) then MS_ERR_NONE
                     else if !env.mime(path) then MS_ERR_MIME_GET_FAIL
                     else if LastAcceptingHas(env, plugins, path) then MS_ERR_NONE
                     else MS_ERR_DB_INSERT_RECORD_FAIL
    {
      var ret := CheckExist(path);
      if ret == MS_ERR_NONE {
        return MS_ERR_NONE;
      }
      ghost var before := plugins;
      ret := Insert(path);
      res := MS_ERR_NONE;
      if env.mime(path) {
        NoInsertError(env, InsertNow, path, |before|);
      }
      if ret != MS_ERR_NONE {
        if !env.mime(path) {
          return MS_ERR_MIME_GET_FAIL;
        }
        for lib_index := 0 to |plugins|
          invariant plugins == InsertItem(env, InsertNow, before, path)
          invariant res == if LastAcceptingHas(env, plugins[..lib_index], path) then MS_ERR_NONE
                           else MS_ERR_DB_INSERT_RECORD_FAIL
        {
          assert plugins[..lib_index + 1][..lib_index] == plugins[..lib_index];
          if env.category(lib_index, path) {
            if Exists(plugins[lib_index], path, StorageOf(path)) {
              res := MS_ERR_NONE;
            } else {
              res := MS_ERR_DB_INSERT_RECORD_FAIL;
            }
          }
        }
        assert plugins[..|plugins|] == plugins;
      } else {
        LastAcceptingHasIff(env, plugins, path);
      }
    }
  }

  /** No plugin accepts the path, or the last one that does has it. */
  predicate LastAcceptingHas(env: Env, db: Db, path: CString) {
    if db == [] then true
    else if env.category(|db| - 1, path) then Exists(db[|db| - 1], path, StorageOf(path))
    else LastAcceptingHas(env, db[..|db| - 1], path)
  }

  lemma {:induction false} LastAcceptingHasIff(env: Env, db: Db, path: CString)
    ensures LastAcceptingHas(env, db, path) <==>
            forall i :: 0 <= i < |db| && env.category(i, path) && (forall j :: i < j < |db| ==> !env.category(j, path))
                        ==> path in db[i] && db[i][path].storage == StorageOf(path)
  {
    if db != [] {
      LastAcceptingHasIff(env, db[..|db| - 1], path);
    }
  }
}
