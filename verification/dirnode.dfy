/** ms_dir_scan_info, the heap node of the traversal, and
    ms_get_full_path_from_node, which rebuilds a path from the parent links. */
module DirNode {
  import opened Base
  import opened PathBuffer

  class DirScanInfo {
    const name: CString
    var parent: DirScanInfo?
    var Rbrother: DirScanInfo?
    var next: DirScanInfo?

    constructor (name: CString)
      ensures this.name == name && parent == null && Rbrother == null && next == null
    {
      this.name := name;
      parent, Rbrother, next := null, null, null;
    }
  }

  /** `chain` lists the nodes from a root down to its last node, by parent links. */
  ghost predicate IsChain(chain: seq<DirScanInfo>)
    reads chain`parent
  {
    && |chain| > 0
    && chain[0].parent == null
    && forall i {:trigger chain[i].parent} :: 1 <= i < |chain| ==> chain[i].parent == chain[i - 1]
  }

  ghost function Names(chain: seq<DirScanInfo>): (names: seq<CString>)
    ensures |names| == |chain|
    ensures forall i {:trigger names[i]} :: 0 <= i < |chain| ==> names[i] == chain[i].name
  {
    seq(|chain|, i requires 0 <= i < |chain| => chain[i].name)
  }

  /** Root-to-node names joined by '/'. */
  function JoinAll(names: seq<CString>): CString
    requires |names| > 0
  {
    if |names| == 1 then names[0]
    else Join(JoinAll(names[..|names| - 1]), names[|names| - 1])
  }

  function SumOfLengths(names: seq<CString>): nat {
    if names == [] then 0 else SumOfLengths(names[..|names| - 1]) + |names[|names| - 1]|
  }

  /** The length of a built path is the sum of the name lengths plus the depth. */
  lemma {:induction false} JoinAllLength(names: seq<CString>)
    requires |names| > 0
    ensures |JoinAll(names)| == SumOfLengths(names) + |names| - 1
  {
    if |names| == 1 {
      assert SumOfLengths(names[..0]) == 0;
    } else {
      JoinAllLength(names[..|names| - 1]);
    }
  }

  /** A longer prefix of the chain never has a shorter path. */
  lemma {:induction false} JoinAllMonotone(names: seq<CString>, k: nat)
    requires 0 < k <= |names|
    ensures |JoinAll(names[..k])| <= |JoinAll(names)|
  {
    if k == |names| {
      assert names[..k] == names;
    } else {
      var init := names[..|names| - 1];
      assert init[..k] == names[..k];
      JoinAllMonotone(init, k);
    }
  }

  /** A buffer of that many cells can take every path prefix that the limit lets through. */
  ghost predicate RoomFor(names: seq<CString>, size: nat)
    requires |names| > 0
  {
    && (|names| > 1 ==> RoomFor(names[..|names| - 1], size))
    && (|JoinAll(names)| <= MS_FILE_PATH_LEN_MAX ==> |JoinAll(names)| < size)
  }

  lemma {:induction false} RoomForPrefix(names: seq<CString>, size: nat, k: nat)
    requires 0 < k <= |names| && RoomFor(names, size)
    ensures RoomFor(names[..k], size)
  {
    if k == |names| {
      assert names[..k] == names;
    } else {
      assert names[..|names| - 1][..k] == names[..k];
      RoomForPrefix(names[..|names| - 1], size, k);
    }
  }

  /** One cell more than the limit is always enough; the limit itself is
      enough exactly if no prefix of the path has that very length. */
  lemma {:induction false} RoomForIff(names: seq<CString>)
    requires |names| > 0
    ensures RoomFor(names, MS_FILE_PATH_LEN_MAX + 1)
    ensures RoomFor(names, MS_FILE_PATH_LEN_MAX)
       <==> forall k :: 0 < k <= |names| ==> |JoinAll(names[..k])| != MS_FILE_PATH_LEN_MAX
  {
    var init := names[..|names| - 1];
    assert names[..|names|] == names;
    if |names| > 1 {
      RoomForIff(init);
      assert forall k :: 0 < k <= |init| ==> init[..k] == names[..k];
    }
  }

  /** A chain of names on a path below the internal storage. */
  function DeepNames(levels: nat, n: nat): (names: seq<CString>)
    ensures |names| > 0
  {
    [MS_ROOT_PATH_INTERNAL] + seq(levels, _ => Letters(NAME_MAX)) + [Letters(n)]
  }

  lemma {:induction false} NestedIsJoined(levels: nat)
    ensures JoinAll([MS_ROOT_PATH_INTERNAL] + seq(levels, _ => Letters(NAME_MAX)))
         == Nested(MS_ROOT_PATH_INTERNAL, levels)
  {
    if levels > 0 {
      NestedIsJoined(levels - 1);
      var names := [MS_ROOT_PATH_INTERNAL] + seq(levels, _ => Letters(NAME_MAX));
      assert names[..|names| - 1] == [MS_ROOT_PATH_INTERNAL] + seq(levels - 1, _ => Letters(NAME_MAX));
    }
  }

  /** A chain of names that directories can have: its path is accepted and does not fit. */
  lemma BufferTooSmall()
    ensures var names := DeepNames(15, 245);
            && JoinAll(names) == DeepPath(245) && |JoinAll(names)| == MS_FILE_PATH_LEN_MAX
            && !RoomFor(names, MS_FILE_PATH_LEN_MAX)
  {
    NestedIsJoined(15);
    var names := DeepNames(15, 245);
    assert names[..|names| - 1] == [MS_ROOT_PATH_INTERNAL] + seq(15, _ => Letters(NAME_MAX));
  }

  /** The cell behind the limit, before and after: it is stored to exactly if
      the limit itself is not room enough. */
  ghost predicate LastCell(names: seq<CString>, before: char, after: char)
    requires |names| > 0
  {
    if RoomFor(names, MS_FILE_PATH_LEN_MAX) then after == before else after == '/' || after == '\0'
  }

  /** ms_get_full_path_from_node. Right only for the true depth of the node;
      it fails exactly when the path is longer than MS_FILE_PATH_LEN_MAX, and
      writes nothing beyond the terminator. */
  method GetFullPathFromNode(node: DirScanInfo, ret_path: array<char>, depth: int, ghost chain: seq<DirScanInfo>)
    returns (err: int)
    requires depth >= 0 ==> IsChain(chain) && node == chain[|chain| - 1] && depth == |chain| - 1
    requires depth >= 0 ==> RoomFor(Names(chain), ret_path.Length)
    modifies ret_path
    ensures err == MS_ERR_NONE || err == MS_ERR_INVALID_DIR_PATH
    ensures depth < 0 ==> err == MS_ERR_INVALID_DIR_PATH && ret_path[..] == old(ret_path[..])
    ensures depth >= 0 ==> (err == MS_ERR_NONE <==> |JoinAll(Names(chain))| <= MS_FILE_PATH_LEN_MAX)
    ensures depth >= 0 && err == MS_ERR_NONE ==>
              var full := JoinAll(Names(chain));
              && ret_path[..|full|] == full
              && ret_path[|full|] == '\0'
              && forall i :: |full| < i < ret_path.Length ==> ret_path[i] == old(ret_path[i])
    ensures depth >= 0 && MS_FILE_PATH_LEN_MAX < ret_path.Length ==>
              LastCell(Names(chain), old(ret_path[MS_FILE_PATH_LEN_MAX]), ret_path[MS_FILE_PATH_LEN_MAX])
  {
    if depth < 0 {
      return MS_ERR_INVALID_DIR_PATH;
    }
    var path_array := new CString[depth + 1];
    var cur_node := node;
    var i := 0;
    while cur_node.parent != null
      invariant 0 <= i <= depth && cur_node == chain[depth - i]
      invariant cur_node.parent == if i == depth then null else chain[depth - i - 1]
      invariant forall k :: 0 <= k < i ==> path_array[k] == chain[depth - k].name
      invariant ret_path[..] == old(ret_path[..])
      decreases depth - i
    {
      path_array[i] := cur_node.name;
      cur_node := cur_node.parent;
      i := i + 1;
    }
    path_array[i] := cur_node.name;
    err := JoinComponents(path_array, ret_path, depth, Names(chain));
  }

  /** The second loop: components from the root down, each followed by '/'. */
  method JoinComponents(path_array: array<CString>, ret_path: array<char>, depth: nat, ghost names: seq<CString>)
    returns (err: int)
    requires |names| == depth + 1 == path_array.Length
    requires forall k :: 0 <= k <= depth ==> path_array[k] == names[depth - k]
    requires RoomFor(names, ret_path.Length)
    modifies ret_path
    ensures err == if |JoinAll(names)| <= MS_FILE_PATH_LEN_MAX then MS_ERR_NONE else MS_ERR_INVALID_DIR_PATH
    ensures err == MS_ERR_NONE ==>
              var full := JoinAll(names);
              && ret_path[..|full|] == full
              && ret_path[|full|] == '\0'
              && forall i :: |full| < i < ret_path.Length ==> ret_path[i] == old(ret_path[i])
    ensures MS_FILE_PATH_LEN_MAX < ret_path.Length ==>
              LastCell(names, old(ret_path[MS_FILE_PATH_LEN_MAX]), ret_path[MS_FILE_PATH_LEN_MAX])
  {
    var i := depth;
    var path_length := 0;
    ghost var done: nat := 0;
    while i >= 0
      invariant done + i == depth && -1 <= i <= depth
      invariant 0 <= path_length <= ret_path.Length && (done == 0 ==> path_length == 0)
      invariant done > 0 ==> ret_path[..path_length] == JoinAll(names[..done]) + "/"
                             && path_length <= MS_FILE_PATH_LEN_MAX + 1
      invariant forall k :: path_length <= k < ret_path.Length ==> ret_path[k] == old(ret_path[k])
    {
      var length := |path_array[i]|;
      ghost var before := ret_path[..path_length];
      NextPrefix(names, done, before);
      if path_length + length > MS_FILE_PATH_LEN_MAX {
        JoinAllMonotone(names, done + 1);
        CellTells(names, done);
        return MS_ERR_INVALID_DIR_PATH;
      }
      RoomForPrefix(names, ret_path.Length, done + 1);
      PutComponent(ret_path, path_length, path_array[i]);
      path_length := path_length + length + 1;
      assert ret_path[..path_length] == before + names[done] + "/";
      i := i - 1;
      done := done + 1;
    }
    assert names[..done] == names;
    path_length := path_length - 1;
    ret_path[path_length] := '\0';
    assert ret_path[..path_length] == (JoinAll(names) + "/")[..path_length] == JoinAll(names);
    CellTells(names, done);
    err := MS_ERR_NONE;
  }

  /** The cell behind the limit is stored to exactly if the last accepted prefix
      has the length of the limit. */
  lemma CellTells(names: seq<CString>, done: nat)
    requires |names| > 0 && done <= |names| && (done > 0 ==> |JoinAll(names[..done])| <= MS_FILE_PATH_LEN_MAX)
    requires done < |names| ==> |JoinAll(names[..done + 1])| > MS_FILE_PATH_LEN_MAX
    ensures RoomFor(names, MS_FILE_PATH_LEN_MAX) <==> !(done > 0 && |JoinAll(names[..done])| == MS_FILE_PATH_LEN_MAX)
  {
    RoomForIff(names);
    LimitPassed(names, done);
  }

  /** Of the prefixes of a chain only the last accepted one can have the very
      length of the limit. */
  lemma LimitPassed(names: seq<CString>, done: nat)
    requires done <= |names| && (done > 0 ==> |JoinAll(names[..done])| <= MS_FILE_PATH_LEN_MAX)
    requires done < |names| ==> |JoinAll(names[..done + 1])| > MS_FILE_PATH_LEN_MAX
    ensures forall k :: 0 < k <= |names| && |JoinAll(names[..k])| == MS_FILE_PATH_LEN_MAX ==> k == done
  {
    forall k | 0 < k <= |names| && |JoinAll(names[..k])| == MS_FILE_PATH_LEN_MAX ensures k == done {
      if k < done {
        assert names[..done][..k + 1] == names[..k + 1] && names[..k + 1][..k] == names[..k];
        JoinAllMonotone(names[..done], k + 1);
      } else if k > done {
        assert names[..k][..done + 1] == names[..done + 1];
        JoinAllMonotone(names[..k], done + 1);
      }
    }
  }

  /** One component and the separator behind it. */
  method PutComponent(ret_path: array<char>, path_length: nat, component: CString)
    requires path_length + |component| < ret_path.Length
    modifies ret_path
    ensures var after := path_length + |component| + 1;
            && ret_path[..after] == old(ret_path[..path_length]) + component + "/"
            && forall k :: after <= k < ret_path.Length ==> ret_path[k] == old(ret_path[k])
  {
    ghost var before := ret_path[..path_length];
    CopyInto(ret_path, path_length, component);
    assert ret_path[..path_length] == before;
    ret_path[path_length + |component|] := '/';
    assert ret_path[..path_length] == before;
    assert ret_path[path_length..path_length + |component|] == component;
  }

  lemma NextPrefix(names: seq<CString>, done: nat, before: string)
    requires done < |names| && before == if done == 0 then "" else JoinAll(names[..done]) + "/"
    ensures JoinAll(names[..done + 1]) == before + names[done]
  {
    assert names[..done + 1][..done] == names[..done];
  }
}
