/** What the finished scan list contains: the directories reachable from the
    root through openable, non-hidden directories, each once. */
module Reachable {
  import opened Base
  import opened FileTree
  import opened Traversal

  /** The path reached from `root` by descending through `names`. */
  function Target(root: CString, names: seq<CString>): CString {
    if names == [] then root else Join(Target(root, names[..|names| - 1]), names[|names| - 1])
  }

  /** A visible entry, of one of the kinds that have the DT_DIR bit, that opens
      under the path that ms_strappend makes for it. */
  predicate LeadsDown(fs: Fs, path: CString, d: Dirent) {
    && !Hidden(d.name) && (d.dtype.Dir? || d.dtype.Blk? || d.dtype.Sock? || d.dtype.Wht?)
    && exists q :: StrAppend(path, d.name) == Ok(q) && q in fs
  }

  /** That is the test that the scanner makes. */
  lemma LeadsDownIff(fs: Fs, path: CString, d: Dirent)
    ensures LeadsDown(fs, path, d) <==> IsChild(fs, path, d)
  {
    BitsTell(d.dtype);
  }

  /** Every step goes from a directory to such an entry. */
  ghost predicate IsDescent(fs: Fs, root: CString, names: seq<CString>) {
    names == [] ||
    (IsDescent(fs, root, names[..|names| - 1])
     && exists d :: d in Listing(fs, Target(root, names[..|names| - 1])) && d.name == names[|names| - 1]
                    && LeadsDown(fs, Target(root, names[..|names| - 1]), d))
  }

  function Listing(fs: Fs, path: CString): seq<Dirent> {
    if path in fs then fs[path] else []
  }

  ghost predicate Reachable(fs: Fs, root: CString, p: CString) {
    exists names :: IsDescent(fs, root, names) && Target(root, names) == p
  }

  lemma {:induction false} ChildrenInMembers(fs: Fs, path: CString, listing: seq<Dirent>, count: nat, n: CString)
    requires count <= |listing|
    ensures n in ChildrenIn(fs, path, listing, count) <==>
            exists i :: 0 <= i < count && listing[i].name == n && IsChild(fs, path, listing[i])
  {
    if count > 0 {
      ChildrenInMembers(fs, path, listing, count - 1, n);
    }
  }

  lemma ChildrenMembers(fs: Fs, path: CString, n: CString)
    ensures n in Children(fs, path) <==> exists d :: d in Listing(fs, path) && d.name == n && LeadsDown(fs, path, d)
  {
    forall d ensures LeadsDown(fs, path, d) <==> IsChild(fs, path, d) {
      LeadsDownIff(fs, path, d);
    }
    if path in fs {
      ChildrenInMembers(fs, path, fs[path], |fs[path]|, n);
    }
  }

  /** Descending never leaves the tree. */
  lemma {:induction false} TargetUnder(root: CString, names: seq<CString>)
    ensures Under(root, Target(root, names)) && root <= Target(root, names)
  {
    if names != [] {
      var before, n := Target(root, names[..|names| - 1]), names[|names| - 1];
      TargetUnder(root, names[..|names| - 1]);
      assert (before + "/") + (n + "/") == Join(before, n) + "/";
    }
    UnderIsPrefix(root, Target(root, names));
  }

  /** One more step at the end of a descent. */
  lemma DescentSnoc(fs: Fs, root: CString, names: seq<CString>, n: CString)
    ensures Target(root, names + [n]) == Join(Target(root, names), n)
    ensures IsDescent(fs, root, names + [n]) <==> IsDescent(fs, root, names) && n in Children(fs, Target(root, names))
  {
    assert (names + [n])[..|names|] == names;
    ChildrenMembers(fs, Target(root, names), n);
  }

  /** One more step at the front of a descent. */
  lemma {:induction false} DescentCons(fs: Fs, root: CString, n: CString, names: seq<CString>)
    requires n in Children(fs, root)
    ensures Target(root, [n] + names) == Target(Join(root, n), names)
    ensures IsDescent(fs, root, [n] + names) <==> IsDescent(fs, Join(root, n), names)
    decreases |names|
  {
    if names == [] {
      assert [n] + names == [] + [n];
      DescentSnoc(fs, root, [], n);
    } else {
      var init, last := names[..|names| - 1], names[|names| - 1];
      DescentCons(fs, root, n, init);
      assert [n] + names == ([n] + init) + [last];
      DescentSnoc(fs, root, [n] + init, last);
      assert names == init + [last];
      DescentSnoc(fs, Join(root, n), init, last);
    }
  }

  /** Every visited directory is reachable. */
  lemma {:induction false} PreorderSound(fs: Fs, path: CString, p: CString)
    requires |path| <= MS_FILE_PATH_LEN_MAX && p in Preorder(fs, path)
    ensures Reachable(fs, path, p)
    decreases MS_FILE_PATH_LEN_MAX - |path|, |Children(fs, path)| + 1
  {
    if p == path {
      assert IsDescent(fs, path, []) && Target(path, []) == p;
    } else {
      ChildrenFit(fs, path);
      PreorderAllSound(fs, path, Children(fs, path), p);
    }
  }

  lemma {:induction false} PreorderAllSound(fs: Fs, path: CString, names: seq<CString>, p: CString)
    requires |path| <= MS_FILE_PATH_LEN_MAX && AllFit(path, names) && p in PreorderAll(fs, path, names)
    requires forall n :: n in names ==> n in Children(fs, path)
    ensures Reachable(fs, path, p)
    decreases MS_FILE_PATH_LEN_MAX - |path|, |names|
  {
    var n := names[0];
    if p in Preorder(fs, Join(path, n)) {
      PreorderSound(fs, Join(path, n), p);
      var rest :| IsDescent(fs, Join(path, n), rest) && Target(Join(path, n), rest) == p;
      DescentCons(fs, path, n, rest);
    } else {
      PreorderAllSound(fs, path, names[1..], p);
    }
  }

  /** Every reachable directory is visited. */
  lemma {:induction false} PreorderComplete(fs: Fs, path: CString, names: seq<CString>)
    requires |path| <= MS_FILE_PATH_LEN_MAX && IsDescent(fs, path, names)
    ensures Target(path, names) in Preorder(fs, path)
    decreases |names|
  {
    if names != [] {
      var n, rest := names[0], names[1..];
      FirstStep(fs, path, names);
      DescentCons(fs, path, n, rest);
      assert [n] + rest == names;
      ChildrenFit(fs, path);
      PreorderComplete(fs, Join(path, n), rest);
      InPreorderAll(fs, path, Children(fs, path), n, Target(path, names));
    }
  }

  lemma {:induction false} FirstStep(fs: Fs, path: CString, names: seq<CString>)
    requires |names| > 0 && IsDescent(fs, path, names)
    ensures names[0] in Children(fs, path)
  {
    var init, last := names[..|names| - 1], names[|names| - 1];
    assert names == init + [last];
    DescentSnoc(fs, path, init, last);
    if |names| > 1 {
      FirstStep(fs, path, init);
    }
  }

  lemma {:induction false} InPreorderAll(fs: Fs, path: CString, names: seq<CString>, n: CString, p: CString)
    requires |path| <= MS_FILE_PATH_LEN_MAX && AllFit(path, names)
    requires n in names && p in Preorder(fs, Join(path, n))
    ensures p in PreorderAll(fs, path, names)
    decreases |names|
  {
    if names[0] != n {
      InPreorderAll(fs, path, names[1..], n, p);
    }
  }

  lemma {:induction false} FoundMembers(fs: Fs, visits: seq<CString>, p: CString)
    ensures p in Found(fs, visits) <==> exists v, n :: v in visits && n in Children(fs, v) && p == Join(v, n)
  {
    if visits != [] {
      var v, names := visits[0], Children(fs, visits[0]);
      FoundMembers(fs, visits[1..], p);
      assert p in JoinEach(v, names) <==> exists n :: n in names && p == Join(v, n) by {
        forall n | n in names && p == Join(v, n) ensures p in JoinEach(v, names) {
          var i :| 0 <= i < |names| && names[i] == n;
          assert JoinEach(v, names)[i] == p;
        }
        if p in JoinEach(v, names) {
          var i :| 0 <= i < |names| && JoinEach(v, names)[i] == p;
          assert names[i] in names && p == Join(v, names[i]);
        }
      }
      assert forall w :: w in visits <==> w == v || w in visits[1..];
    }
  }

  lemma FoundSound(fs: Fs, root: CString, p: CString)
    requires |root| <= MS_FILE_PATH_LEN_MAX && p in Found(fs, Preorder(fs, root))
    ensures Reachable(fs, root, p)
  {
    FoundMembers(fs, Preorder(fs, root), p);
    var v, n :| v in Preorder(fs, root) && n in Children(fs, v) && p == Join(v, n);
    PreorderSound(fs, root, v);
    var names :| IsDescent(fs, root, names) && Target(root, names) == v;
    DescentSnoc(fs, root, names, n);
  }

  lemma FoundComplete(fs: Fs, root: CString, names: seq<CString>)
    requires |root| <= MS_FILE_PATH_LEN_MAX && names != [] && IsDescent(fs, root, names)
    ensures Target(root, names) in Found(fs, Preorder(fs, root))
  {
    var init, last := names[..|names| - 1], names[|names| - 1];
    assert names == init + [last];
    DescentSnoc(fs, root, init, last);
    PreorderComplete(fs, root, init);
    FoundMembers(fs, Preorder(fs, root), Target(root, names));
  }

  /** The root and what the visits found make up the reachable directories. */
  lemma FoundIsReachable(fs: Fs, root: CString, p: CString)
    requires |root| <= MS_FILE_PATH_LEN_MAX
    ensures p == root || p in Found(fs, Preorder(fs, root)) <==> Reachable(fs, root, p)
  {
    if p in Found(fs, Preorder(fs, root)) {
      FoundSound(fs, root, p);
    }
    if Reachable(fs, root, p) {
      var names :| IsDescent(fs, root, names) && Target(root, names) == p;
      if names != [] {
        FoundComplete(fs, root, names);
      }
    }
    assert IsDescent(fs, root, []) && Target(root, []) == root;
  }

  /** The scan list of an uninterrupted traversal that starts from an empty
      list: exactly the reachable directories, none of them twice. */
  lemma ScanListIsReachableSet(fs: Fs, root: CString)
    requires |root| <= MS_FILE_PATH_LEN_MAX
    ensures NoDup(Expected(fs, [], root))
    ensures forall p :: p in Expected(fs, [], root) <==> Reachable(fs, root, p)
  {
    var found := Found(fs, Preorder(fs, root));
    assert AddUnique([], root) == [root];
    AddAllMembers([root], found);
    forall p ensures p in Expected(fs, [], root) <==> Reachable(fs, root, p) {
      FoundIsReachable(fs, root, p);
    }
  }
}
