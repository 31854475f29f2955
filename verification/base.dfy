/** Types, limits and error codes shared by every part of the server.
    Sources: common/include/media-server-types.h, media-server-error.h,
    media-server-global.h and the string helpers of media-server-utils.c. */
module Base {

  /** A C string: its characters, none of which is the terminator. */
  type CString = s: string | '\0' !in s

  datatype Option<+T> = None | Some(value: T)

  datatype Result<+T> = Ok(value: T) | Err(code: int)

  /** FAT_FILEPATH_LEN_MAX, also the size of every path buffer. */
  const MS_FILE_PATH_LEN_MAX: nat := 4096

  const MS_ERR_NONE: int := 0
  const MS_ERR_OUT_OF_RANGE: int := -0x03
  const MS_ERR_INVALID_DIR_PATH: int := -0x04
  const MS_ERR_NOW_REGISTER_FILE: int := -0x06
  const MS_ERR_DIR_OPEN_FAIL: int := -0x10
  const MS_ERR_DB_INSERT_RECORD_FAIL: int := -0x31
  const MS_ERR_DB_DELETE_RECORD_FAIL: int := -0x32
  const MS_ERR_DB_UPDATE_RECORD_FAIL: int := -0x33
  const MS_ERR_DB_EXIST_ITEM_FAIL: int := -0x36
  const MS_ERR_DRM_REGISTER_FAIL: int := -0x42
  const MS_ERR_MIME_GET_FAIL: int := -0x64
  const MS_ERR_MAX: int := -0xff

  const MS_ROOT_PATH_INTERNAL: CString := "/opt/media"
  const MS_ROOT_PATH_EXTERNAL: CString := "/opt/storage/sdcard"

  datatype Storage = Internal | External | NoStorage

  /** ms_get_storage_type_by_full: a plain prefix test, so a path such as
      "/opt/media2" also counts as internal. */
  function StorageOf(path: string): Storage {
    if MS_ROOT_PATH_INTERNAL <= path then Internal
    else if MS_ROOT_PATH_EXTERNAL <= path then External
    else NoStorage
  }

  function RootOf(storage: Storage): CString
    requires !storage.NoStorage?
  {
    if storage.Internal? then MS_ROOT_PATH_INTERNAL else MS_ROOT_PATH_EXTERNAL
  }

  /** No path belongs to both storages. */
  lemma StorageTells(path: string)
    ensures StorageOf(path).Internal? <==> "/opt/media" <= path
    ensures StorageOf(path).External? <==> "/opt/storage/sdcard" <= path
    ensures RootOf(Internal) == "/opt/media" && RootOf(External) == "/opt/storage/sdcard"
  {
    assert "/opt/media" <= path ==> |path| > 5 && path[5] == "/opt/media"[5];
    assert "/opt/storage/sdcard" <= path ==> |path| > 5 && path[5] == "/opt/storage/sdcard"[5];
  }

  function Join(dir: CString, name: CString): CString {
    dir + "/" + name
  }

  /** ms_strappend with pattern "%s/%s" into a path buffer. The length test
      leaves the separator out, and snprintf is given one byte less than the
      buffer has: a result of 4095 or 4096 characters is cut to 4094. */
  function StrAppend(dir: CString, name: CString): (r: Result<CString>)
    ensures r.Ok? <==> |Join(dir, name)| <= MS_FILE_PATH_LEN_MAX
    ensures r.Ok? ==> r.value <= Join(dir, name)
    ensures r.Ok? && r.value != Join(dir, name) ==> |r.value| == MS_FILE_PATH_LEN_MAX - 2
    ensures r.Ok? ==> (r.value == Join(dir, name) <==> |Join(dir, name)| <= MS_FILE_PATH_LEN_MAX - 2)
  {
    var realSize := MS_FILE_PATH_LEN_MAX - 1;
    if realSize < |dir| + |name| then Err(MS_ERR_OUT_OF_RANGE)
    else if |Join(dir, name)| < realSize then Ok(Join(dir, name))
    else
      var cut := Join(dir, name)[..realSize - 1];
      assert forall i :: 0 <= i < |cut| ==> cut[i] == Join(dir, name)[i];
      Ok(cut)
  }

  /** `p` is `root` or lies in the tree below it. */
  predicate Under(root: CString, p: CString) {
    root + "/" <= p + "/"
  }

  lemma UnderIsPrefix(root: CString, p: CString)
    requires Under(root, p)
    ensures root <= p
    ensures p == root || root + "/" <= p
  {
    assert forall i :: 0 <= i < |root| ==> (root + "/")[i] == root[i] && (p + "/")[i] == p[i];
    if |p| > |root| {
      assert forall i :: 0 <= i <= |root| ==> (p + "/")[i] == p[i];
    }
  }

  lemma LongerDirHasSlash(d1: CString, n1: CString, d2: CString, n2: CString)
    requires Join(d1, n1) == Join(d2, n2) && |d1| < |d2|
    ensures '/' in n1
  {
    assert Join(d2, n2)[|d2|] == '/';
    assert Join(d1, n1)[|d2|] == n1[|d2| - |d1| - 1];
  }

  lemma JoinInjective(d1: CString, n1: CString, d2: CString, n2: CString)
    requires '/' !in n1 && '/' !in n2 && Join(d1, n1) == Join(d2, n2)
    ensures d1 == d2 && n1 == n2
  {
    var p := Join(d1, n1);
    assert |d1| == |d2| by {
      if |d1| < |d2| {
        LongerDirHasSlash(d1, n1, d2, n2);
      } else if |d2| < |d1| {
        LongerDirHasSlash(d2, n2, d1, n1);
      }
    }
    assert d1 == p[..|d1|] && d2 == p[..|d2|] && n1 == p[|d1| + 1..] && n2 == p[|d2| + 1..];
  }

  function AddUnique<T(==)>(list: seq<T>, x: T): seq<T> {
    if x in list then list else list + [x]
  }

  /** The list after adding `xs` one by one, skipping what is already there. */
  function AddAll<T(==)>(list: seq<T>, xs: seq<T>): seq<T>
    decreases |xs|
  {
    if xs == [] then list else AddAll(AddUnique(list, xs[0]), xs[1..])
  }

  ghost predicate NoDup<T>(s: seq<T>) {
    forall i, j :: 0 <= i < j < |s| ==> s[i] != s[j]
  }

  lemma ConcatAssoc<T>(a: seq<T>, b: seq<T>, c: seq<T>)
    ensures (a + b) + c == a + (b + c)
  {
  }

  lemma PrefixConcat<T>(front: seq<T>, a: seq<T>, b: seq<T>)
    requires a <= b
    ensures front + a <= front + b
  {
    assert front + b == (front + a) + b[|a|..];
  }

  lemma PrefixExtended<T>(a: seq<T>, b: seq<T>, rest: seq<T>)
    requires a <= b
    ensures a <= b + rest
  {
    assert b + rest == a + (b[|a|..] + rest);
  }

  lemma {:induction false} AddAllConcat<T>(list: seq<T>, xs: seq<T>, ys: seq<T>)
    ensures AddAll(list, xs + ys) == AddAll(AddAll(list, xs), ys)
    decreases |xs|
  {
    if xs == [] {
      assert xs + ys == ys;
    } else {
      assert (xs + ys)[1..] == xs[1..] + ys;
      AddAllConcat(AddUnique(list, xs[0]), xs[1..], ys);
    }
  }

  /** Adding never reorders: the old list stays a prefix, nothing is listed
      twice, and the members are the old ones and the added ones. */
  lemma {:induction false} AddAllMembers<T>(list: seq<T>, xs: seq<T>)
    ensures list <= AddAll(list, xs)
    ensures NoDup(list) ==> NoDup(AddAll(list, xs))
    ensures forall x :: x in AddAll(list, xs) <==> x in list || x in xs
    decreases |xs|
  {
    if xs != [] {
      AddAllMembers(AddUnique(list, xs[0]), xs[1..]);
      assert forall x :: x in xs <==> x == xs[0] || x in xs[1..];
    }
  }

  /** On a duplicate-free run of new elements the additions are a plain append. */
  lemma {:induction false} AddAllFresh<T>(list: seq<T>, xs: seq<T>)
    requires NoDup(list + xs)
    ensures AddAll(list, xs) == list + xs
    decreases |xs|
  {
    if xs == [] {
      assert list + xs == list;
    } else {
      assert xs[0] !in list by {
        assert forall i :: 0 <= i < |list| ==> (list + xs)[i] == list[i];
        assert (list + xs)[|list|] == xs[0];
      }
      assert (list + [xs[0]]) + xs[1..] == list + xs;
      AddAllFresh(list + [xs[0]], xs[1..]);
    }
  }
}
