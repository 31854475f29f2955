/** When the two recursive walks of media-server-inotify.c end. Their calls have
    no bound but the length of a path, and ms_strappend cuts paths. */
module WalkEnds {
  import opened Base
  import opened FileTree
  import opened PathBuffer

  /** Where a recursive call stands: its directory and, in the walk after a
      rename, the path from which it believes the directory to have come. */
  datatype Spot = Spot(dir: CString, from: Option<CString>)

  /** The entries for which the call makes another one: visible directories
      whose paths ms_strappend accepts. */
  predicate Enters(fs: Fs, s: Spot, d: Dirent) {
    && s.dir in fs && d in fs[s.dir] && !Hidden(d.name) && d.dtype.Dir?
    && StrAppend(s.dir, d.name).Ok? && (s.from.Some? ==> StrAppend(s.from.value, d.name).Ok?)
  }

  function Into(s: Spot, d: Dirent): Spot
    requires StrAppend(s.dir, d.name).Ok? && (s.from.Some? ==> StrAppend(s.from.value, d.name).Ok?)
  {
    Spot(StrAppend(s.dir, d.name).value,
         if s.from.Some? then Some(StrAppend(s.from.value, d.name).value) else None)
  }

  /** The call returns, without going more than `n` directories deep. */
  ghost predicate Ends(fs: Fs, s: Spot, n: nat)
    decreases n
  {
    s.dir !in fs || (n > 0 && forall d :: Enters(fs, s, d) ==> Ends(fs, Into(s, d), n - 1))
  }

  /** A chain of `k` further calls leads from `s` to `t`. */
  ghost predicate Route(fs: Fs, s: Spot, t: Spot, k: nat)
    decreases k
  {
    if k == 0 then s == t else exists d :: Enters(fs, s, d) && Route(fs, Into(s, d), t, k - 1)
  }

  /** The call enters the very directory where it stands. */
  ghost predicate Stalls(fs: Fs, s: Spot) {
    exists d :: Enters(fs, s, d) && Into(s, d).dir == s.dir
  }

  /** The walk never comes to such a call. */
  ghost predicate Progresses(fs: Fs, s: Spot) {
    forall t, k :: Route(fs, s, t, k) ==> !Stalls(fs, t)
  }

  /** A joined path is that of the directory itself exactly for a name of at most
      one letter in a directory whose path has 4094 characters. */
  lemma StallsIff(p: CString, n: CString)
    ensures StrAppend(p, n) == Ok(p) <==> |p| == MS_FILE_PATH_LEN_MAX - 2 && |n| <= 1
  {
    var q := StrAppend(p, n);
    if |p| == MS_FILE_PATH_LEN_MAX - 2 && |n| <= 1 {
      assert q.Ok? && |q.value| == |p|;
      assert forall i :: 0 <= i < |p| ==> q.value[i] == Join(p, n)[i] == p[i];
      assert q.value == p;
    }
  }

  /** How many directories deep a call can go at most. A path that was joined
      never has more than 4094 characters. */
  function Depth(p: CString): nat {
    if |p| > MS_FILE_PATH_LEN_MAX - 2 then MS_FILE_PATH_LEN_MAX else MS_FILE_PATH_LEN_MAX - 1 - |p|
  }

  /** Unless it comes back to its own directory, each call brings the path nearer to the limit. */
  lemma Deeper(fs: Fs, s: Spot, d: Dirent)
    requires Progresses(fs, s) && Enters(fs, s, d)
    ensures Progresses(fs, Into(s, d)) && Depth(Into(s, d).dir) < Depth(s.dir)
  {
    var next := Into(s, d);
    forall t, k: nat | Route(fs, next, t, k) ensures !Stalls(fs, t) {
      assert Route(fs, s, t, k + 1);
    }
    assert Route(fs, s, s, 0);
    StallsIff(s.dir, d.name);
    assert next.dir != s.dir;
    if |s.dir| <= MS_FILE_PATH_LEN_MAX - 2 {
      SameLength(s.dir, d.name);
    }
  }

  /** A joined path that is no longer than the directory's is the directory's. */
  lemma SameLength(p: CString, n: CString)
    requires StrAppend(p, n).Ok? && |p| <= MS_FILE_PATH_LEN_MAX - 2
    ensures |StrAppend(p, n).value| <= |p| ==> StrAppend(p, n).value == p
  {
    var q := StrAppend(p, n).value;
    if |q| <= |p| {
      assert |q| == |p|;
      assert forall i :: 0 <= i < |p| ==> q[i] == Join(p, n)[i] == p[i];
    }
  }

  lemma {:induction false} EndsIfProgress(fs: Fs, s: Spot, n: nat)
    requires Progresses(fs, s) && Depth(s.dir) <= n
    ensures Ends(fs, s, n)
    decreases n
  {
    forall d | Enters(fs, s, d) ensures n > 0 && Ends(fs, Into(s, d), n - 1) {
      Deeper(fs, s, d);
      EndsIfProgress(fs, Into(s, d), n - 1);
    }
  }

  /** A call that stalls once stalls again where it comes to: the old path, too,
      is accepted as often as one likes. */
  lemma StallsAgain(fs: Fs, s: Spot, d: Dirent)
    requires Enters(fs, s, d) && Into(s, d).dir == s.dir
    ensures Enters(fs, Into(s, d), d) && Into(Into(s, d), d).dir == s.dir
  {
    StallsIff(s.dir, d.name);
  }

  /** No bound on the depth is enough for such a call. */
  lemma {:induction false} StalledForever(fs: Fs, s: Spot, n: nat)
    requires Stalls(fs, s)
    ensures !Ends(fs, s, n)
    decreases n
  {
    if n > 0 {
      var d :| Enters(fs, s, d) && Into(s, d).dir == s.dir;
      StallsAgain(fs, s, d);
      StalledForever(fs, Into(s, d), n - 1);
    }
  }

  /** Nor does one that leads to it. */
  lemma {:induction false} NoReturn(fs: Fs, s: Spot, t: Spot, k: nat, n: nat)
    requires Route(fs, s, t, k) && Stalls(fs, t)
    ensures !Ends(fs, s, n)
    decreases k
  {
    if k == 0 {
      StalledForever(fs, s, n);
    } else if n > 0 {
      var d :| Enters(fs, s, d) && Route(fs, Into(s, d), t, k - 1);
      NoReturn(fs, Into(s, d), t, k - 1, n - 1);
    }
  }

  /** A walk ends if and only if it does not come to a call that enters its own
      directory; then its calls are never more than 4096 deep. */
  lemma EndsIff(fs: Fs, s: Spot)
    ensures (exists n :: Ends(fs, s, n)) <==> Progresses(fs, s)
    ensures Progresses(fs, s) ==> Ends(fs, s, MS_FILE_PATH_LEN_MAX)
  {
    if Progresses(fs, s) {
      var limit: nat := MS_FILE_PATH_LEN_MAX;
      EndsIfProgress(fs, s, limit);
      assert Ends(fs, s, limit);
    } else {
      var t, k :| Route(fs, s, t, k) && Stalls(fs, t);
      forall n ensures !Ends(fs, s, n) {
        NoReturn(fs, s, t, k, n);
      }
    }
  }

  /** What such a directory is, in the walk over a new tree: its path has 4094
      characters, and it lists a visible directory with a name of one letter. */
  lemma StallsInNewTreeIff(fs: Fs, p: CString)
    ensures Stalls(fs, Spot(p, None)) <==>
            p in fs && |p| == MS_FILE_PATH_LEN_MAX - 2
            && exists d :: d in fs[p] && !Hidden(d.name) && d.dtype.Dir? && |d.name| <= 1
  {
    forall d | p in fs && d in fs[p] && !Hidden(d.name) && d.dtype.Dir?
      ensures Enters(fs, Spot(p, None), d) && Into(Spot(p, None), d).dir == p
         <==> |p| == MS_FILE_PATH_LEN_MAX - 2 && |d.name| <= 1
    {
      StallsIff(p, d.name);
    }
  }

  /** In the walk after a rename the old path must be accepted, too. */
  lemma StallsAfterRenameIff(fs: Fs, from: CString, p: CString)
    ensures Stalls(fs, Spot(p, Some(from))) <==>
            p in fs && |p| == MS_FILE_PATH_LEN_MAX - 2
            && exists d :: d in fs[p] && !Hidden(d.name) && d.dtype.Dir? && |d.name| <= 1
                           && |from| + |d.name| <= MS_FILE_PATH_LEN_MAX - 1
  {
    forall d | p in fs && d in fs[p] && !Hidden(d.name) && d.dtype.Dir?
      ensures Enters(fs, Spot(p, Some(from)), d) && Into(Spot(p, Some(from)), d).dir == p
         <==> |p| == MS_FILE_PATH_LEN_MAX - 2 && |d.name| <= 1 && |from| + |d.name| <= MS_FILE_PATH_LEN_MAX - 1
    {
      StallsIff(p, d.name);
    }
  }

  /** A file system on which neither recursion ends, whatever the path of 4094
      characters and the old path, if there is one. */
  lemma StallingTree(p: CString, from: Option<CString>, n: nat)
    requires |p| == MS_FILE_PATH_LEN_MAX - 2 && (from.Some? ==> |from.value| <= MS_FILE_PATH_LEN_MAX - 2)
    ensures !Ends(map[p := [Dirent("b", Dir)]], Spot(p, from), n)
  {
    var fs: Fs := map[p := [Dirent("b", Dir)]];
    assert fs[p][0] == Dirent("b", Dir);
    if from.Some? {
      StallsAfterRenameIff(fs, from.value, p);
    } else {
      StallsInNewTreeIff(fs, p);
    }
    StalledForever(fs, Spot(p, from), n);
  }

  /** There is such a path below the internal storage, made of names that a directory can have. */
  lemma StallingPath()
    ensures var p := DeepPath(243);
            |p| == MS_FILE_PATH_LEN_MAX - 2 && StorageOf(p) == Internal
  {
  }
}
