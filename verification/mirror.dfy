/** Scheduler, traversal and database together: on every run of the scan
    thread the database follows the trees that were scanned. */
module Mirror {
  import opened Base
  import opened FileTree
  import opened MediaDb
  import opened Scheduler
  import opened SchedulerRuns
  import opened DirScan
  import opened Reconcile
  import Traversal
  import Reachable

  /** What one request does, according to how it fared: nothing when the
      database could not be opened. */
  function Outcome(env: Env, db: Db, r: Request, fate: Fate, seen: seq<CString>): (after: Db)
    ensures |after| == |db|
  {
    if fate.connects then Effect(env, db, r, seen, fate.powerOff) else db
  }

  /** The database after the requests were taken up one by one; `seen[k]` are
      the files that the scan for request k went through. */
  function Exec(env: Env, db: Db, taken: seq<Request>, fates: seq<Fate>, seen: seq<seq<CString>>): (r: Db)
    requires |taken| == |fates| == |seen|
    ensures |r| == |db|
  {
    if taken == [] then db
    else
      var n := |taken| - 1;
      Outcome(env, Exec(env, db, taken[..n], fates[..n], seen[..n]), taken[n], fates[n], seen[n])
  }

  /** Every scan stays inside the storage it was asked for. */
  ghost predicate InPlace(taken: seq<Request>, seen: seq<seq<CString>>)
    requires |taken| == |seen|
  {
    forall k, p :: 0 <= k < |taken| && p in seen[k] ==> StorageOf(p) == taken[k].storage
  }

  /** Position of the last request of a storage, if there was one. */
  function LastOf(taken: seq<Request>, storage: Storage): (k: int)
    ensures -1 <= k < |taken|
    ensures k >= 0 ==> Matches(taken[k], storage)
    ensures k >= 0 <==> Of(taken, storage) != []
    ensures k >= 0 ==> Of(taken, storage)[|Of(taken, storage)| - 1] == taken[k]
  {
    if taken == [] then -1
    else
      var n := |taken| - 1;
      assert taken == taken[..n] + [taken[n]];
      OfSnoc(taken[..n], taken[n], storage);
      if Matches(taken[n], storage) then n else LastOf(taken[..n], storage)
  }

  /** For its storage, every plugin holds exactly the accepted ones of `files`. */
  ghost predicate Holds(env: Env, db: Db, storage: Storage, files: seq<CString>) {
    forall i, p: CString {:trigger p in db[i]} :: 0 <= i < |db| && StorageOf(p) == storage ==>
      (p in db[i] <==> p in files && env.Accepts(i, p))
  }

  /** Serving a request of another storage leaves the items of this one alone. */
  lemma OtherStorage(env: Env, db: Db, r: Request, files: seq<CString>, off: bool, i: nat, p: CString)
    requires NoFailures(env) && WellFiled(db) && i < |db| && !r.scanType.PowerOff?
    requires StorageOf(p) != r.storage && forall f :: f in files ==> StorageOf(f) == r.storage
    ensures var after := Effect(env, db, r, files, off);
            (p in after[i] <==> p in db[i]) && (p in db[i] ==> after[i][p] == db[i][p])
  {
    assert p !in files;
    assert !FailsBy(env, i + 1);
    match r.scanType {
      case Invalid => InvalidateMarks(env, db, r.storage);
      case Part => HandledAll(env, db, Part, files, i, p);
      case All =>
        var cleared := MediaDb.DeleteAll(env, db, r.storage);
        assert forall k {:trigger cleared[k]} :: 0 <= k < |db| ==> cleared[k] == Without(db[k], r.storage) by {
          assert forall k: nat :: !FailsBy(env, k);
        }
        HandledAll(env, cleared, All, files, i, p);
    }
  }

  lemma FiledAfterEffect(env: Env, db: Db, r: Request, files: seq<CString>, off: bool)
    requires NoFailures(env) && WellFiled(db) && !r.scanType.PowerOff?
    ensures WellFiled(Effect(env, db, r, files, off))
  {
    match r.scanType {
      case Invalid => InvalidateMarks(env, db, r.storage);
      case Part =>
        if off {
          FiledAfter(env, db, Part, files);
        } else if db != [] {
          PartKeys(env, db, r, files, 0, "");
        }
      case All =>
        if db != [] { AllKeys(env, db, r, files, 0, ""); }
    }
  }

  /** What the last request of the storage left behind. */
  ghost predicate Reflects(env: Env, db: Db, taken: seq<Request>, seen: seq<seq<CString>>, storage: Storage)
    requires |taken| == |seen|
  {
    var k := LastOf(taken, storage);
    if k < 0 || taken[k].scanType.Invalid? then AllInvalid(db, storage)
    else Holds(env, db, storage, seen[k])
  }

  /** The request was carried out: the database could be opened, and invalid
      items were deleted if that was part of it. */
  predicate CarriedOut(r: Request, fate: Fate) {
    fate.connects && (r.scanType.Part? ==> !fate.powerOff)
  }

  /** One more request of the storage itself. */
  lemma ReflectsOwn(env: Env, db: Db, r: Request, fate: Fate, files: seq<CString>)
    requires NoFailures(env) && WellFiled(db) && !r.scanType.PowerOff? && CarriedOut(r, fate)
    requires r.scanType.Part? ==> AllInvalid(db, r.storage)
    ensures var after := Outcome(env, db, r, fate, files);
            if r.scanType.Invalid? then AllInvalid(after, r.storage) else Holds(env, after, r.storage, files)
  {
    if r.scanType.Invalid? {
      InvalidateMarks(env, db, r.storage);
    } else {
      var after := Effect(env, db, r, files, false);
      assert Outcome(env, db, r, fate, files) == after;
      forall i, p: CString | 0 <= i < |after| && StorageOf(p) == r.storage
        ensures p in after[i] <==> p in files && env.Accepts(i, p)
      {
        if r.scanType.Part? {
          PartKeys(env, db, r, files, i, p);
        } else {
          AllKeys(env, db, r, files, i, p);
        }
      }
    }
  }

  ghost predicate SameFor(before: Db, after: Db, storage: Storage) {
    && |before| == |after|
    && forall i, p: CString {:trigger p in after[i]} :: 0 <= i < |before| && StorageOf(p) == storage ==>
         (p in after[i] <==> p in before[i]) && (p in before[i] ==> after[i][p] == before[i][p])
  }

  /** Whatever becomes of a request, it changes no item of another storage. */
  lemma OthersKept(env: Env, db: Db, r: Request, fate: Fate, files: seq<CString>, storage: Storage)
    requires NoFailures(env) && WellFiled(db) && !r.scanType.PowerOff? && r.storage != storage
    requires forall f :: f in files ==> StorageOf(f) == r.storage
    ensures SameFor(db, Outcome(env, db, r, fate, files), storage)
  {
    if fate.connects {
      var after := Effect(env, db, r, files, fate.powerOff);
      forall i, p: CString | 0 <= i < |db| && StorageOf(p) == storage
        ensures (p in after[i] <==> p in db[i]) && (p in db[i] ==> after[i][p] == db[i][p])
      {
        OtherStorage(env, db, r, files, fate.powerOff, i, p);
      }
    }
  }

  /** One more request of another storage. */
  lemma ReflectsOther(
      env: Env, before: Db, after: Db, taken: seq<Request>, seen: seq<seq<CString>>, r: Request, files: seq<CString>,
      storage: Storage)
    requires |taken| == |seen| && Reflects(env, before, taken, seen, storage)
    requires SameFor(before, after, storage) && !Matches(r, storage)
    ensures Reflects(env, after, taken + [r], seen + [files], storage)
  {
    var k := LastOf(taken, storage);
    assert (taken + [r])[..|taken|] == taken && LastOf(taken + [r], storage) == k;
    if k < 0 || taken[k].scanType.Invalid? {
      assert AllInvalid(after, storage);
    } else {
      assert (seen + [files])[k] == seen[k];
      assert Holds(env, after, storage, seen[k]);
    }
  }

  /** What a partial scan, request number `k`, finds in the items of its storage:
      nothing valid, because the request before it was an INVALID that was
      carried out or, if there was none, because there was nothing valid at first. */
  ghost predicate Prepared(db: Db, taken: seq<Request>, fates: seq<Fate>, storage: Storage, k: nat)
    requires k < |taken| == |fates|
  {
    var j := LastOf(taken[..k], storage);
    if j < 0 then AllInvalid(db, storage) else taken[j].scanType.Invalid? && CarriedOut(taken[j], fates[j])
  }

  /** The last request of the storage was carried out and, if it was a partial
      scan, prepared for. */
  ghost predicate Grounded(db: Db, taken: seq<Request>, fates: seq<Fate>, storage: Storage)
    requires |taken| == |fates|
  {
    var k := LastOf(taken, storage);
    if k < 0 then AllInvalid(db, storage)
    else
      && CarriedOut(taken[k], fates[k])
      && (taken[k].scanType.Part? ==> Prepared(db, taken, fates, storage, k))
  }

  /** The database reflects the last request of a storage as soon as that one was
      carried out and prepared for - whatever became of the requests before it
      and of those of the other storage, and wherever scans were cut short. */
  lemma {:induction false} LastRequestReflects(
      env: Env, db: Db, taken: seq<Request>, fates: seq<Fate>, seen: seq<seq<CString>>, storage: Storage)
    requires NoFailures(env) && WellFiled(db)
    requires |taken| == |fates| == |seen| && InPlace(taken, seen)
    requires forall k :: 0 <= k < |taken| ==> !taken[k].scanType.PowerOff?
    requires Grounded(db, taken, fates, storage)
    ensures Reflects(env, Exec(env, db, taken, fates, seen), taken, seen, storage)
    decreases |taken|
  {
    if taken != [] {
      var init, fates0, seen0, r, fate, files := WithoutLast(env, db, taken, fates, seen);
      GroundedSnoc(db, init, fates0, r, fate, storage);
      StaysFiled(env, db, init, fates0, seen0);
      if Grounded(db, init, fates0, storage) {
        LastRequestReflects(env, db, init, fates0, seen0, storage);
      }
      OneMoreRequest(env, db, init, fates0, seen0, r, fate, files, storage);
    }
  }

  lemma WithoutLast(env: Env, db: Db, taken: seq<Request>, fates: seq<Fate>, seen: seq<seq<CString>>)
    returns (init: seq<Request>, fates0: seq<Fate>, seen0: seq<seq<CString>>,
             r: Request, fate: Fate, files: seq<CString>)
    requires |taken| == |fates| == |seen| > 0 && InPlace(taken, seen)
    requires forall k :: 0 <= k < |taken| ==> !taken[k].scanType.PowerOff?
    ensures taken == init + [r] && fates == fates0 + [fate] && seen == seen0 + [files]
    ensures |init| == |fates0| == |seen0| < |taken| && InPlace(init, seen0)
    ensures !r.scanType.PowerOff? && (forall p :: p in files ==> StorageOf(p) == r.storage)
    ensures forall k :: 0 <= k < |init| ==> !init[k].scanType.PowerOff?
    ensures Exec(env, db, taken, fates, seen) == Outcome(env, Exec(env, db, init, fates0, seen0), r, fate, files)
  {
    var n := |taken| - 1;
    init, fates0, seen0, r, fate, files := taken[..n], fates[..n], seen[..n], taken[n], fates[n], seen[n];
  }

  /** One more request, after what was there before. */
  lemma OneMoreRequest(
      env: Env, db: Db, taken: seq<Request>, fates: seq<Fate>, seen: seq<seq<CString>>,
      r: Request, fate: Fate, files: seq<CString>, storage: Storage)
    requires NoFailures(env) && |taken| == |fates| == |seen| && WellFiled(Exec(env, db, taken, fates, seen))
    requires !r.scanType.PowerOff? && forall p :: p in files ==> StorageOf(p) == r.storage
    requires GroundedNext(db, taken, fates, r, fate, storage)
    requires Grounded(db, taken, fates, storage) ==>
               Reflects(env, Exec(env, db, taken, fates, seen), taken, seen, storage)
    ensures Reflects(env, Outcome(env, Exec(env, db, taken, fates, seen), r, fate, files),
                     taken + [r], seen + [files], storage)
  {
    var before := Exec(env, db, taken, fates, seen);
    if r.storage == storage {
      OwnTurn(env, before, taken, seen, r, fate, files);
    } else {
      OthersKept(env, before, r, fate, files, storage);
      ReflectsOther(env, before, Outcome(env, before, r, fate, files), taken, seen, r, files, storage);
    }
  }

  /** The same condition in terms of the last request and those before it. */
  ghost predicate GroundedNext(
      db: Db, taken: seq<Request>, fates: seq<Fate>, r: Request, fate: Fate, storage: Storage)
    requires |taken| == |fates|
  {
    var j := LastOf(taken, storage);
    if r.storage != storage then Grounded(db, taken, fates, storage)
    else
      && CarriedOut(r, fate)
      && (r.scanType.Part? ==> Grounded(db, taken, fates, storage) && (j >= 0 ==> taken[j].scanType.Invalid?))
  }

  lemma GroundedSnoc(db: Db, taken: seq<Request>, fates: seq<Fate>, r: Request, fate: Fate, storage: Storage)
    requires |taken| == |fates| && !r.scanType.PowerOff? && Grounded(db, taken + [r], fates + [fate], storage)
    ensures GroundedNext(db, taken, fates, r, fate, storage)
  {
    var all := taken + [r];
    assert all[..|taken|] == taken;
    if r.storage != storage {
      var k := LastOf(taken, storage);
      assert LastOf(all, storage) == k;
      if k >= 0 {
        assert all[..k] == taken[..k];
      }
    } else {
      assert LastOf(all, storage) == |taken|;
    }
  }

  lemma OwnTurn(
      env: Env, before: Db, taken: seq<Request>, seen: seq<seq<CString>>, r: Request, fate: Fate, files: seq<CString>)
    requires NoFailures(env) && WellFiled(before) && !r.scanType.PowerOff? && CarriedOut(r, fate)
    requires |taken| == |seen| && (r.scanType.Part? ==> AllInvalid(before, r.storage))
    ensures Reflects(env, Outcome(env, before, r, fate, files), taken + [r], seen + [files], r.storage)
  {
    ReflectsOwn(env, before, r, fate, files);
    assert LastOf(taken + [r], r.storage) == |taken|;
  }

  lemma {:induction false} StaysFiled(
      env: Env, db: Db, taken: seq<Request>, fates: seq<Fate>, seen: seq<seq<CString>>)
    requires NoFailures(env) && WellFiled(db) && |taken| == |fates| == |seen|
    requires forall k :: 0 <= k < |taken| ==> !taken[k].scanType.PowerOff?
    ensures WellFiled(Exec(env, db, taken, fates, seen))
  {
    if taken != [] {
      var n := |taken| - 1;
      StaysFiled(env, db, taken[..n], fates[..n], seen[..n]);
      FiledAfterEffect(env, Exec(env, db, taken[..n], fates[..n], seen[..n]), taken[n], seen[n], fates[n].powerOff);
    }
  }

  /** With alternation only the INVALID before a partial scan has to be carried out. */
  lemma AlternationPrepares(db: Db, taken: seq<Request>, fates: seq<Fate>, storage: Storage, k: nat)
    requires |taken| == |fates| && Alternating(Of(taken, storage))
    requires k < |taken| && Matches(taken[k], storage) && taken[k].scanType.IsScan()
    ensures var j := LastOf(taken[..k], storage); j >= 0 ==> taken[j].scanType.Invalid?
  {
    assert taken == (taken[..k] + [taken[k]]) + taken[k + 1..];
    OfConcat(taken[..k] + [taken[k]], taken[k + 1..], storage);
    OfSnoc(taken[..k], taken[k], storage);
    AlternatingPrefix(Of(taken[..k], storage) + [taken[k]], Of(taken[k + 1..], storage));
    LastWasInvalid(taken[..k], taken[k], storage);
  }

  lemma LastWasInvalid(init: seq<Request>, r: Request, storage: Storage)
    requires Matches(r, storage) && r.scanType.IsScan() && Alternating(Of(init, storage) + [r])
    ensures LastOf(init, storage) >= 0 ==> init[LastOf(init, storage)].scanType.Invalid?
  {
    var own := Of(init, storage);
    assert (own + [r])[|own|].scanType.IsScan();
    assert own != [] ==> (own + [r])[|own| - 1] == own[|own| - 1];
  }

  /** Position of the last request of a storage for which the database could be opened, if there was one. */
  function LastDone(taken: seq<Request>, fates: seq<Fate>, storage: Storage): (k: int)
    requires |taken| == |fates|
    ensures -1 <= k < |taken|
    ensures k >= 0 ==> Matches(taken[k], storage) && fates[k].connects
    ensures forall j :: k < j < |taken| && Matches(taken[j], storage) ==> !fates[j].connects
  {
    if taken == [] then -1
    else
      var n := |taken| - 1;
      if Matches(taken[n], storage) && fates[n].connects then n else LastDone(taken[..n], fates[..n], storage)
  }

  /** The database after the first `k` requests. */
  function ExecUpTo(env: Env, db: Db, taken: seq<Request>, fates: seq<Fate>, seen: seq<seq<CString>>, k: nat): Db
    requires k <= |taken| == |fates| == |seen|
  {
    Exec(env, db, taken[..k], fates[..k], seen[..k])
  }

  lemma UpToSnoc(
      env: Env, db: Db, taken: seq<Request>, fates: seq<Fate>, seen: seq<seq<CString>>,
      r: Request, fate: Fate, files: seq<CString>, k: nat)
    requires k <= |taken| == |fates| == |seen|
    ensures ExecUpTo(env, db, taken + [r], fates + [fate], seen + [files], k)
         == ExecUpTo(env, db, taken, fates, seen, k)
  {
    assert (taken + [r])[..k] == taken[..k] && (fates + [fate])[..k] == fates[..k];
    assert (seen + [files])[..k] == seen[..k];
  }

  lemma UpToAll(env: Env, db: Db, taken: seq<Request>, fates: seq<Fate>, seen: seq<seq<CString>>)
    requires |taken| == |fates| == |seen|
    ensures ExecUpTo(env, db, taken, fates, seen, |taken|) == Exec(env, db, taken, fates, seen)
  {
    assert taken[..|taken|] == taken && fates[..|taken|] == fates && seen[..|taken|] == seen;
  }

  lemma LastDoneSnoc(taken: seq<Request>, fates: seq<Fate>, r: Request, fate: Fate, storage: Storage)
    requires |taken| == |fates|
    ensures LastDone(taken + [r], fates + [fate], storage)
         == if Matches(r, storage) && fate.connects then |taken| else LastDone(taken, fates, storage)
  {
    assert (taken + [r])[..|taken|] == taken && (fates + [fate])[..|taken|] == fates;
  }

  /** The items of one storage. */
  function ItemsOf(db: Db, storage: Storage): (r: Db)
    ensures |r| == |db|
    ensures forall i {:trigger r[i]} :: 0 <= i < |db| ==> r[i] == Own(db[i], storage)
  {
    seq(|db|, i requires 0 <= i < |db| => Own(db[i], storage))
  }

  function Own(m: Plugin, storage: Storage): Plugin {
    map p | p in m && StorageOf(p) == storage :: m[p]
  }

  lemma SameItems(before: Db, after: Db, storage: Storage)
    ensures SameFor(before, after, storage) <==> ItemsOf(before, storage) == ItemsOf(after, storage)
  {
    var a, b := ItemsOf(before, storage), ItemsOf(after, storage);
    if SameFor(before, after, storage) {
      forall i | 0 <= i < |a| ensures a[i] == b[i] {
        assert forall p: CString :: StorageOf(p) == storage ==> (p in after[i] <==> p in before[i]);
      }
    }
    if a == b {
      forall i, p: CString | 0 <= i < |before| && StorageOf(p) == storage
        ensures (p in after[i] <==> p in before[i]) && (p in before[i] ==> after[i][p] == before[i][p])
      {
        assert a[i] == b[i] && (p in before[i] <==> p in a[i]) && (p in after[i] <==> p in b[i]);
      }
    }
  }

  /** After that request the items of the storage do not change any more. */
  lemma {:induction false} QuietSince(
      env: Env, db: Db, taken: seq<Request>, fates: seq<Fate>, seen: seq<seq<CString>>, storage: Storage)
    requires NoFailures(env) && WellFiled(db)
    requires |taken| == |fates| == |seen| && InPlace(taken, seen)
    requires forall k :: 0 <= k < |taken| ==> !taken[k].scanType.PowerOff?
    requires LastDone(taken, fates, storage) >= 0
    ensures ItemsOf(ExecUpTo(env, db, taken, fates, seen, LastDone(taken, fates, storage) + 1), storage)
         == ItemsOf(Exec(env, db, taken, fates, seen), storage)
    decreases |taken|
  {
    var init, fates0, seen0, r, fate, files := WithoutLast(env, db, taken, fates, seen);
    LastDoneSnoc(init, fates0, r, fate, storage);
    if Matches(r, storage) && fate.connects {
      UpToAll(env, db, taken, fates, seen);
    } else {
      QuietSince(env, db, init, fates0, seen0, storage);
      UpToSnoc(env, db, init, fates0, seen0, r, fate, files, LastDone(init, fates0, storage) + 1);
      StaysFiled(env, db, init, fates0, seen0);
      QuietStep(env, Exec(env, db, init, fates0, seen0), r, fate, files, storage);
    }
  }

  lemma QuietStep(env: Env, before: Db, r: Request, fate: Fate, files: seq<CString>, storage: Storage)
    requires NoFailures(env) && WellFiled(before) && !r.scanType.PowerOff?
    requires forall f :: f in files ==> StorageOf(f) == r.storage
    requires !(Matches(r, storage) && fate.connects)
    ensures ItemsOf(Outcome(env, before, r, fate, files), storage) == ItemsOf(before, storage)
  {
    if fate.connects {
      OthersKept(env, before, r, fate, files, storage);
      SameItems(before, Outcome(env, before, r, fate, files), storage);
    }
  }

  /** One scan that is carried out leaves exactly the accepted files if and only
      if it is a full one or finds no valid item that it would not insert. */
  lemma ScanHoldsIff(env: Env, db: Db, r: Request, fate: Fate, files: seq<CString>)
    requires NoFailures(env) && WellFiled(db) && r.scanType.IsScan() && CarriedOut(r, fate)
    ensures Holds(env, Outcome(env, db, r, fate, files), r.storage, files) <==>
            (r.scanType.Part? ==> NoStrayValid(env, db, r.storage, files))
  {
    var after := Outcome(env, db, r, fate, files);
    forall i, p: CString | 0 <= i < |db| && StorageOf(p) == r.storage
      ensures (p in after[i] <==> p in files && env.Accepts(i, p)) <==>
              !(r.scanType.Part? && p in db[i] && Stray(env, db[i], i, r.storage, files, p))
    {
      if r.scanType.Part? {
        PartKeys(env, db, r, files, i, p);
      } else {
        AllKeys(env, db, r, files, i, p);
      }
    }
  }

  /** If request number `k` is a partial scan, it finds no valid item that it would not insert. */
  ghost predicate NothingStray(
      env: Env, db: Db, taken: seq<Request>, fates: seq<Fate>, seen: seq<seq<CString>>, storage: Storage, k: nat)
    requires k < |taken| == |fates| == |seen|
  {
    taken[k].scanType.Part? ==>
      NoStrayValid(env, Exec(env, db, taken[..k], fates[..k], seen[..k]), storage, seen[k])
  }

  lemma OneMore(
      env: Env, db: Db, taken: seq<Request>, fates: seq<Fate>, seen: seq<seq<CString>>, k: nat)
    requires k < |taken| == |fates| == |seen|
    ensures Exec(env, db, taken[..k + 1], fates[..k + 1], seen[..k + 1]) ==
            Outcome(env, Exec(env, db, taken[..k], fates[..k], seen[..k]), taken[k], fates[k], seen[k])
  {
    assert taken[..k + 1][..k] == taken[..k] && fates[..k + 1][..k] == fates[..k] && seen[..k + 1][..k] == seen[..k];
  }

  lemma SameHolds(env: Env, before: Db, after: Db, storage: Storage, files: seq<CString>)
    requires SameFor(before, after, storage)
    ensures Holds(env, after, storage, files) <==> Holds(env, before, storage, files)
  {
    assert forall i, p: CString :: 0 <= i < |before| && StorageOf(p) == storage ==> (p in before[i] <==> p in after[i]);
  }

  /** The database holds what the last scan went through, if that was carried
      out, exactly when that scan found nothing stray. */
  lemma LastScanIff(
      env: Env, db: Db, taken: seq<Request>, fates: seq<Fate>, seen: seq<seq<CString>>, storage: Storage)
    requires NoFailures(env) && WellFiled(db)
    requires |taken| == |fates| == |seen| && InPlace(taken, seen)
    requires forall k :: 0 <= k < |taken| ==> !taken[k].scanType.PowerOff?
    requires var k := LastDone(taken, fates, storage);
             k >= 0 && taken[k].scanType.IsScan() && CarriedOut(taken[k], fates[k])
    ensures var k := LastDone(taken, fates, storage);
            Holds(env, Exec(env, db, taken, fates, seen), storage, seen[k]) <==>
            NothingStray(env, db, taken, fates, seen, storage, k)
  {
    var k := LastDone(taken, fates, storage);
    QuietSince(env, db, taken, fates, seen, storage);
    StaysFiled(env, db, taken[..k], fates[..k], seen[..k]);
    OneMore(env, db, taken, fates, seen, k);
    ScanHoldsIff(env, Exec(env, db, taken[..k], fates[..k], seen[..k]), taken[k], fates[k], seen[k]);
    SameItems(ExecUpTo(env, db, taken, fates, seen, k + 1), Exec(env, db, taken, fates, seen), storage);
    SameHolds(env, ExecUpTo(env, db, taken, fates, seen, k + 1), Exec(env, db, taken, fates, seen), storage, seen[k]);
  }

  /** That is so if the scan was prepared for, whatever it finds. */
  lemma PreparedFindsNothingStray(
      env: Env, db: Db, taken: seq<Request>, fates: seq<Fate>, seen: seq<seq<CString>>, storage: Storage, k: nat)
    requires NoFailures(env) && WellFiled(db)
    requires k < |taken| == |fates| == |seen| && InPlace(taken, seen)
    requires forall j :: 0 <= j < |taken| ==> !taken[j].scanType.PowerOff?
    requires Prepared(db, taken, fates, storage, k)
    ensures NothingStray(env, db, taken, fates, seen, storage, k)
  {
    LastRequestReflects(env, db, taken[..k], fates[..k], seen[..k], storage);
    assert AllInvalid(Exec(env, db, taken[..k], fates[..k], seen[..k]), storage);
  }

  // ----- Scans of whole trees -----

  lemma SameStart(root: CString, p: CString)
    requires root == MS_ROOT_PATH_INTERNAL || root == MS_ROOT_PATH_EXTERNAL
    requires root <= p
    ensures root == RootOf(StorageOf(p))
  {
    if root == MS_ROOT_PATH_EXTERNAL {
      assert p[5] == root[5] == 's' && MS_ROOT_PATH_INTERNAL[5] == 'm';
    }
  }

  /** A scan of a storage's root only meets files of that storage. */
  lemma TreeFilesInPlace(fs: Fs, storage: Storage, p: CString)
    requires !storage.NoStorage? && FileReachable(fs, RootOf(storage), p)
    ensures StorageOf(p) == storage
  {
    var root := RootOf(storage);
    var dir, d :| Reachable.Reachable(fs, root, dir) && d in Reachable.Listing(fs, dir) && FileEntry(dir, d, p);
    var names :| Reachable.IsDescent(fs, root, names) && Reachable.Target(root, names) == dir;
    Reachable.TargetUnder(root, names);
    assert p <= Join(dir, d.name) && root <= Join(dir, d.name) && |root| <= |p|;
    SameStart(root, p);
  }

  /** `files` are what a scan of the tree goes through, or a first part of it
      when the scan is cut short; a request that is not a scan sees none. */
  ghost predicate ScanOf(r: Request, files: seq<CString>, tree: Fs) {
    !r.storage.NoStorage? && files <= if r.scanType.IsScan() then TreeFiles(tree, r.storage) else []
  }

  /** What the scans of a run went through, each in the tree of its time. */
  ghost predicate Scans(taken: seq<Request>, seen: seq<seq<CString>>, trees: seq<Fs>) {
    && |taken| == |seen| == |trees|
    && forall k {:trigger trees[k]} :: 0 <= k < |taken| ==> ScanOf(taken[k], seen[k], trees[k])
  }

  ghost function TreeFiles(fs: Fs, storage: Storage): seq<CString>
    requires !storage.NoStorage?
  {
    FilesIn(fs, Traversal.Expected(fs, [], RootOf(storage)))
  }

  lemma ScansInPlace(taken: seq<Request>, seen: seq<seq<CString>>, trees: seq<Fs>)
    requires Scans(taken, seen, trees)
    ensures InPlace(taken, seen)
  {
    forall k, p | 0 <= k < |taken| && p in seen[k] ensures StorageOf(p) == taken[k].storage {
      assert ScanOf(taken[k], seen[k], trees[k]);
      var root := RootOf(taken[k].storage);
      assert p in TreeFiles(trees[k], taken[k].storage);
      ScanSeesReachableFiles(trees[k], root, p);
      TreeFilesInPlace(trees[k], taken[k].storage, p);
    }
  }

  lemma {:induction false} TakenAreNotPowerOff(s: State, events: seq<Event>)
    requires forall k :: 0 <= k < |s.taken| ==> !s.taken[k].scanType.PowerOff?
    ensures forall k :: 0 <= k < |Run(s, events).taken| ==> !Run(s, events).taken[k].scanType.PowerOff?
    decreases |events|
  {
    if events != [] {
      TakenAreNotPowerOff(Next(s, events[0]), events[1..]);
    }
  }

  /** A run of the scan thread: `s` is the state after the events, `after` the
      database that the requests taken up made of `db`, each as it fared. */
  ghost predicate RunOf(
      env: Env, db: Db, events: seq<Event>, s: State, seen: seq<seq<CString>>, trees: seq<Fs>, after: Db)
  {
    && s == Run(INIT, events)
    && |s.taken| == |s.fates| && Scans(s.taken, seen, trees)
    && after == Exec(env, db, s.taken, s.fates, seen)
  }

  /** The last request of the storage for which the database could be opened was
      a scan that was carried out; later ones were dropped. */
  ghost predicate ScannedLast(s: State, storage: Storage, last: int)
    requires |s.taken| == |s.fates|
  {
    && last == LastDone(s.taken, s.fates, storage) >= 0
    && s.taken[last].scanType.IsScan() && CarriedOut(s.taken[last], s.fates[last])
  }

  /** On every such run each plugin holds, for that storage, exactly the accepted
      files that the last scan went through - whatever became of the requests
      before, and whichever scans were cut short, this one included - if and only
      if that scan was a full one or found no valid item that it would not insert. */
  lemma DatabaseHoldsLastScanIff(
      env: Env, db: Db, events: seq<Event>, s: State, seen: seq<seq<CString>>, trees: seq<Fs>,
      storage: Storage, after: Db, last: int)
    requires NoFailures(env) && WellFiled(db) && !storage.NoStorage?
    requires RunOf(env, db, events, s, seen, trees, after) && ScannedLast(s, storage, last)
    ensures Holds(env, after, storage, seen[last]) <==> NothingStray(env, db, s.taken, s.fates, seen, storage, last)
  {
    ScansInPlace(s.taken, seen, trees);
    TakenAreNotPowerOff(INIT, events);
    LastScanIff(env, db, s.taken, s.fates, seen, storage);
  }

  /** For the storage, the plugins hold exactly the files of a tree that they accept. */
  ghost predicate MirrorsTree(env: Env, db: Db, storage: Storage, tree: Fs)
    requires !storage.NoStorage?
  {
    forall i, p: CString {:trigger p in db[i], FileReachable(tree, RootOf(storage), p)} ::
      0 <= i < |db| && StorageOf(p) == storage ==>
      (p in db[i] <==> FileReachable(tree, RootOf(storage), p) && env.Accepts(i, p))
  }

  /** The main result: if moreover the last scan was complete, the plugins hold
      exactly the files they accept among those reachable in the tree it scanned,
      under the same condition. */
  lemma DatabaseMirrorsLastScanIff(
      env: Env, db: Db, events: seq<Event>, s: State, seen: seq<seq<CString>>, trees: seq<Fs>,
      storage: Storage, after: Db, last: int)
    requires NoFailures(env) && WellFiled(db) && !storage.NoStorage?
    requires RunOf(env, db, events, s, seen, trees, after) && ScannedLast(s, storage, last)
    requires seen[last] == TreeFiles(trees[last], storage)
    ensures MirrorsTree(env, after, storage, trees[last]) <==>
            NothingStray(env, db, s.taken, s.fates, seen, storage, last)
  {
    DatabaseHoldsLastScanIff(env, db, events, s, seen, trees, storage, after, last);
    forall p: CString ensures p in seen[last] <==> FileReachable(trees[last], RootOf(storage), p) {
      ScanSeesReachableFiles(trees[last], RootOf(storage), p);
    }
  }

  /** On a disciplined run a scan is prepared for if the request before it was
      carried out or, if there was none, nothing of the storage was valid at first. */
  lemma DisciplinePrepares(db: Db, events: seq<Event>, s: State, storage: Storage, k: nat)
    requires s == Run(INIT, events) && k < |s.taken| == |s.fates| && Disciplined(Arrivals(events), storage)
    requires Matches(s.taken[k], storage) && s.taken[k].scanType.IsScan()
    ensures Prepared(db, s.taken, s.fates, storage, k) <==>
            var j := LastOf(s.taken[..k], storage);
            if j < 0 then AllInvalid(db, storage) else CarriedOut(s.taken[j], s.fates[j])
  {
    ScansFollowInvalid(events, storage);
    AlternationPrepares(db, s.taken, s.fates, storage, k);
  }
}
