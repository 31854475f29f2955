/** The file system as the scanner sees it, and the plain recursive walk that
    the stackless traversal has to agree with. */
module FileTree {
  import opened Base

  /** dirent.d_type, with the numeric codes of <dirent.h>. */
  datatype DType = Unknown | Fifo | Chr | Dir | Blk | Reg | Lnk | Sock | Wht {
    function Code(): nat {
      match this
      case Unknown => 0
      case Fifo => 1
      case Chr => 2
      case Dir => 4
      case Blk => 6
      case Reg => 8
      case Lnk => 10
      case Sock => 12
      case Wht => 14
    }

    /** `d_type & DT_DIR`: also true of Blk, Sock and Wht. */
    predicate DirBit() {
      Code() / 4 % 2 == 1
    }

    /** `d_type & DT_REG`: also true of Lnk, Sock and Wht. */
    predicate RegBit() {
      Code() / 8 % 2 == 1
    }
  }

  /** The kinds that pass the two tests of the scanner. */
  lemma BitsTell(d: DType)
    ensures d.DirBit() <==> d.Dir? || d.Blk? || d.Sock? || d.Wht?
    ensures d.RegBit() <==> d.Reg? || d.Lnk? || d.Sock? || d.Wht?
  {
  }

  datatype Dirent = Dirent(name: CString, dtype: DType)

  /** opendir(p) succeeds exactly for the keys; the value is what readdir_r lists. */
  type Fs = map<CString, seq<Dirent>>

  predicate Hidden(name: CString) {
    |name| > 0 && name[0] == '.'
  }

  /** Those are the names that begin with a dot. */
  lemma HiddenIff(name: CString)
    ensures Hidden(name) <==> "." <= name
  {
  }

  /** The test the scanner makes on one directory entry: not hidden, directory
      bit set, and the (possibly cut) path can be opened. */
  predicate IsChild(fs: Fs, path: CString, d: Dirent) {
    && !Hidden(d.name)
    && d.dtype.DirBit()
    && var probe := StrAppend(path, d.name);
       probe.Ok? && probe.value in fs
  }

  /** Names of the child directories among the first `count` entries. */
  function ChildrenIn(fs: Fs, path: CString, listing: seq<Dirent>, count: nat): seq<CString>
    requires count <= |listing|
  {
    if count == 0 then []
    else
      var d := listing[count - 1];
      ChildrenIn(fs, path, listing, count - 1) + (if IsChild(fs, path, d) then [d.name] else [])
  }

  lemma {:induction false} ChildrenInPrefix(fs: Fs, path: CString, listing: seq<Dirent>, j: nat, count: nat)
    requires j <= count <= |listing|
    ensures ChildrenIn(fs, path, listing, j) <= ChildrenIn(fs, path, listing, count)
  {
    if j < count {
      ChildrenInPrefix(fs, path, listing, j, count - 1);
    }
  }

  ghost predicate AllFit(path: CString, names: seq<CString>) {
    forall n :: n in names ==> |Join(path, n)| <= MS_FILE_PATH_LEN_MAX
  }

  /** Names of the directories that a visit of `path` finds, in listing order. */
  function Children(fs: Fs, path: CString): seq<CString> {
    if path in fs then ChildrenIn(fs, path, fs[path], |fs[path]|) else []
  }

  /** The length test of ms_strappend already keeps children within the limit
      of the path builder. */
  lemma ChildrenFit(fs: Fs, path: CString)
    ensures AllFit(path, Children(fs, path))
  {
    if path in fs {
      ChildrenInFit(fs, path, fs[path], |fs[path]|);
    }
  }

  lemma {:induction false} ChildrenInFit(fs: Fs, path: CString, listing: seq<Dirent>, count: nat)
    requires count <= |listing|
    ensures AllFit(path, ChildrenIn(fs, path, listing, count))
  {
    if count > 0 {
      ChildrenInFit(fs, path, listing, count - 1);
    }
  }

  /** Every directory of the tree at `path`, each before what it contains. */
  ghost function Preorder(fs: Fs, path: CString): (visits: seq<CString>)
    requires |path| <= MS_FILE_PATH_LEN_MAX
    ensures |visits| >= 1 && visits[0] == path
    decreases MS_FILE_PATH_LEN_MAX - |path|, |Children(fs, path)| + 1
  {
    ChildrenFit(fs, path);
    [path] + PreorderAll(fs, path, Children(fs, path))
  }

  ghost function PreorderAll(fs: Fs, path: CString, names: seq<CString>): seq<CString>
    requires |path| <= MS_FILE_PATH_LEN_MAX && AllFit(path, names)
    decreases MS_FILE_PATH_LEN_MAX - |path|, |names|
  {
    if names == [] then []
    else Preorder(fs, Join(path, names[0])) + PreorderAll(fs, path, names[1..])
  }

  function JoinEach(path: CString, names: seq<CString>): (paths: seq<CString>)
    ensures |paths| == |names|
    ensures forall i {:trigger paths[i]} :: 0 <= i < |names| ==> paths[i] == Join(path, names[i])
  {
    seq(|names|, i requires 0 <= i < |names| => Join(path, names[i]))
  }

  /** The paths that visiting `visits` one after the other puts on the scan list. */
  function Found(fs: Fs, visits: seq<CString>): seq<CString> {
    if visits == [] then []
    else JoinEach(visits[0], Children(fs, visits[0])) + Found(fs, visits[1..])
  }
}
