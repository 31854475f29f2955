/** On a file system whose directories list distinct plain names, the scan list
    holds each directory where the walk finds it, and nothing is ever skipped. */
module ScanOrder {
  import opened Base
  import opened FileTree
  import Traversal
  import Reachable

  /** Entries of a directory have different names, none with a '/' in it. */
  ghost predicate PlainNames(fs: Fs) {
    && (forall p, i, j :: p in fs && 0 <= i < j < |fs[p]| ==> fs[p][i].name != fs[p][j].name)
    && (forall p, d :: p in fs && d in fs[p] ==> '/' !in d.name)
  }

  lemma NoDupConcat<T>(a: seq<T>, b: seq<T>)
    requires NoDup(a) && NoDup(b) && forall x :: x in a ==> x !in b
    ensures NoDup(a + b)
  {
    forall i, j | 0 <= i < j < |a + b| ensures (a + b)[i] != (a + b)[j] {
      assert i < |a| ==> a[i] in a;
      assert j >= |a| ==> b[j - |a|] in b;
    }
  }

  lemma {:induction false} ChildrenInDistinct(fs: Fs, path: CString, listing: seq<Dirent>, count: nat)
    requires count <= |listing| && forall i, j :: 0 <= i < j < |listing| ==> listing[i].name != listing[j].name
    ensures NoDup(ChildrenIn(fs, path, listing, count))
  {
    if count > 0 {
      ChildrenInDistinct(fs, path, listing, count - 1);
      var d := listing[count - 1];
      Reachable.ChildrenInMembers(fs, path, listing, count - 1, d.name);
      NoDupConcat(ChildrenIn(fs, path, listing, count - 1), if IsChild(fs, path, d) then [d.name] else []);
    }
  }

  /** `names` could be the children of one directory. */
  ghost predicate Siblings(names: seq<CString>) {
    NoDup(names) && forall n :: n in names ==> '/' !in n
  }

  lemma ChildrenAreSiblings(fs: Fs, p: CString)
    requires PlainNames(fs)
    ensures Siblings(Children(fs, p))
  {
    if p in fs {
      ChildrenInDistinct(fs, p, fs[p], |fs[p]|);
      forall n | n in Children(fs, p) ensures '/' !in n {
        Reachable.ChildrenMembers(fs, p, n);
      }
    }
  }

  lemma UnderChild(p: CString, n: CString, x: CString)
    requires Under(Join(p, n), x)
    ensures Under(p, x) && |x| > |p|
  {
    UnderIsPrefix(Join(p, n), x);
    assert (p + "/") + (n + "/") == Join(p, n) + "/";
  }

  lemma LongerHasSlash(m: CString, n: CString, rest: string)
    requires m + "/" <= rest && n + "/" <= rest && |m| < |n|
    ensures '/' in n
  {
    assert rest[|m|] == (m + "/")[|m|] == '/';
    assert rest[|m|] == (n + "/")[|m|] == n[|m|];
  }

  /** The trees of different brothers have no path in common. */
  lemma BrothersApart(p: CString, m: CString, n: CString, x: CString)
    requires '/' !in m && '/' !in n && Under(Join(p, m), x) && Under(Join(p, n), x)
    ensures m == n
  {
    var k := |p| + 1;
    var rest := (x + "/")[k..];
    assert (Join(p, m) + "/")[k..] == m + "/" && (Join(p, n) + "/")[k..] == n + "/";
    assert m + "/" <= rest && n + "/" <= rest;
    if |m| < |n| {
      LongerHasSlash(m, n, rest);
    } else if |n| < |m| {
      LongerHasSlash(n, m, rest);
    } else {
      assert m == rest[..|m|] && n == rest[..|n|];
    }
  }

  /** The walk stays below its root and visits no directory twice. */
  lemma {:induction false} PreorderDistinct(fs: Fs, p: CString)
    requires PlainNames(fs) && |p| <= MS_FILE_PATH_LEN_MAX
    ensures NoDup(Preorder(fs, p)) && forall x :: x in Preorder(fs, p) ==> Under(p, x)
    decreases MS_FILE_PATH_LEN_MAX - |p|, |Children(fs, p)| + 1
  {
    ChildrenFit(fs, p);
    ChildrenAreSiblings(fs, p);
    var below := PreorderAll(fs, p, Children(fs, p));
    PreorderAllDistinct(fs, p, Children(fs, p));
    forall x | x in below ensures Under(p, x) && x != p {
      var n :| n in Children(fs, p) && Under(Join(p, n), x);
      UnderChild(p, n, x);
    }
    NoDupConcat([p], below);
  }

  lemma {:induction false} PreorderAllDistinct(fs: Fs, p: CString, names: seq<CString>)
    requires PlainNames(fs) && |p| <= MS_FILE_PATH_LEN_MAX && AllFit(p, names) && Siblings(names)
    ensures NoDup(PreorderAll(fs, p, names))
    ensures forall x :: x in PreorderAll(fs, p, names) ==> exists n :: n in names && Under(Join(p, n), x)
    decreases MS_FILE_PATH_LEN_MAX - |p|, |names|
  {
    if names != [] {
      var first, rest := Preorder(fs, Join(p, names[0])), PreorderAll(fs, p, names[1..]);
      PreorderDistinct(fs, Join(p, names[0]));
      PreorderAllDistinct(fs, p, names[1..]);
      forall x | x in first ensures x !in rest {
        if x in rest {
          var n :| n in names[1..] && Under(Join(p, n), x);
          BrothersApart(p, names[0], n, x);
        }
      }
      NoDupConcat(first, rest);
      forall x | x in rest ensures exists n :: n in names && Under(Join(p, n), x) {
        var n :| n in names[1..] && Under(Join(p, n), x);
        assert n in names;
      }
    }
  }

  /** Different visits find different paths. */
  lemma {:induction false} FoundDistinct(fs: Fs, visits: seq<CString>)
    requires PlainNames(fs) && NoDup(visits)
    ensures NoDup(Found(fs, visits))
  {
    if visits != [] {
      var v, kids, rest := visits[0], Children(fs, visits[0]), Found(fs, visits[1..]);
      ChildrenAreSiblings(fs, v);
      FoundDistinct(fs, visits[1..]);
      assert NoDup(JoinEach(v, kids)) by {
        forall i, j | 0 <= i < j < |kids| ensures JoinEach(v, kids)[i] != JoinEach(v, kids)[j] {
          if Join(v, kids[i]) == Join(v, kids[j]) {
            JoinInjective(v, kids[i], v, kids[j]);
          }
        }
      }
      forall x | x in JoinEach(v, kids) ensures x !in rest {
        var i :| 0 <= i < |kids| && JoinEach(v, kids)[i] == x;
        Reachable.FoundMembers(fs, visits[1..], x);
        if x in rest {
          var w, m :| w in visits[1..] && m in Children(fs, w) && x == Join(w, m);
          ChildrenAreSiblings(fs, w);
          JoinInjective(v, kids[i], w, m);
        }
      }
      NoDupConcat(JoinEach(v, kids), rest);
    }
  }

  lemma FoundLonger(fs: Fs, root: CString, visits: seq<CString>)
    requires forall v :: v in visits ==> Under(root, v)
    ensures forall x :: x in Found(fs, visits) ==> |x| > |root|
  {
    forall x | x in Found(fs, visits) ensures |x| > |root| {
      Reachable.FoundMembers(fs, visits, x);
      var v, n :| v in visits && n in Children(fs, v) && x == Join(v, n);
      UnderIsPrefix(root, v);
    }
  }

  /** The scan list of an uninterrupted traversal, spelled out: the root, then
      for each directory in the order of the recursive walk its child
      directories in listing order. */
  lemma ScanListInOrder(fs: Fs, root: CString)
    requires PlainNames(fs) && |root| <= MS_FILE_PATH_LEN_MAX
    ensures Traversal.Expected(fs, [], root) == [root] + Found(fs, Preorder(fs, root))
  {
    var visits := Preorder(fs, root);
    PreorderDistinct(fs, root);
    FoundDistinct(fs, visits);
    FoundLonger(fs, root, visits);
    NoDupConcat([root], Found(fs, visits));
    AddAllFresh([root], Found(fs, visits));
    assert AddUnique([], root) == [root];
  }
}
