/** The producer of the memory-card requests: ms_mmc_vconf_cb and
    ms_mmc_removed_handler, which turn card states into scan requests. */
module ExternalStorage {
  import opened Base
  import opened Scheduler
  import opened SchedulerRuns
  import opened WatchList

  datatype MmcStatus = Removed | Mounted | InsertedNotMounted | Unknown

  /** What one callback reads: the card state, the identity of the card that is
      in, and the identity kept in the configuration, if it can be read. */
  datatype Reading = Reading(status: MmcStatus, cid: string, kept: Option<string>)

  /** _ms_check_mmc_info: it is the card that was scanned completely before. */
  predicate SameCard(cid: string, kept: Option<string>) {
    kept.Some? && kept.value == cid
  }

  /** ms_get_mmc_state */
  function ScanTypeFor(cid: string, kept: Option<string>): ScanType {
    if SameCard(cid, kept) then Part else All
  }

  function RequestsFor(reading: Reading, id: nat): seq<Request> {
    match reading.status
    case Removed => [Request(id, Invalid, External)]
    case InsertedNotMounted => [Request(id, Invalid, External)]
    case Mounted => [Request(id, ScanTypeFor(reading.cid, reading.kept), External)]
    case Unknown => []
  }

  /** What is asked for when: an INVALID when the card is gone or not mounted any
      more, a PART scan for the card whose identity is kept, and an ALL scan for
      any other; always one request, for the external storage, unless the state is unknown. */
  lemma RequestsTell(reading: Reading, id: nat)
    ensures var q, status := RequestsFor(reading, id), reading.status;
            && (q == [] <==> status.Unknown?) && |q| <= 1
            && (forall r :: r in q ==> r.id == id && r.storage.External? && !r.scanType.PowerOff?)
            && (forall r :: r in q ==> (r.scanType.Invalid? <==> status.Removed? || status.InsertedNotMounted?))
            && (forall r :: r in q ==> (r.scanType.Part? <==> status.Mounted? && reading.kept == Some(reading.cid)))
            && (forall r :: r in q ==> (r.scanType.All? <==> status.Mounted? && reading.kept != Some(reading.cid)))
  {
  }

  /** All requests of a sequence of callbacks; each allocates its own object. */
  function Requests(readings: seq<Reading>): seq<Request> {
    if readings == [] then []
    else Requests(readings[..|readings| - 1]) + RequestsFor(readings[|readings| - 1], |readings| - 1)
  }

  /** Every watch whose name does not have the card's path in it as a stretch is
      still there, for example those of the internal storage. */
  ghost predicate OthersSurvive(before: seq<Watch>, after: seq<Watch>) {
    forall w :: w in before && !Stretch(w.name, MS_ROOT_PATH_EXTERNAL) ==> w in after
  }

  lemma OthersAreSpared(ws: seq<Watch>)
    ensures OthersSurvive(ws, WithoutContaining(ws, MS_ROOT_PATH_EXTERNAL))
  {
    WithoutContainingMembers(ws, MS_ROOT_PATH_EXTERNAL);
  }

  /** Taking the card out leaves the internal storage alone, for example. */
  lemma InternalWatchStays(w: Watch, ws: seq<Watch>)
    requires w.name == "/opt/media/Images/Vacation" && w in ws
    ensures w in WithoutContaining(ws, MS_ROOT_PATH_EXTERNAL)
  {
    var card := MS_ROOT_PATH_EXTERNAL;
    forall a, b ensures w.name != a + card + b {
      var hay := a + card + b;
      assert hay[|a|] == card[0] == '/' && hay[|a| + 1] == card[1] == 'o' && hay[|a| + 5] == card[5] == 's';
    }
    WithoutContainingMembers(ws, card);
  }

  class CardMonitor {
    const watch_list: InotiList
    var mmc_state: MmcStatus
    var scan_queue: seq<Request>
    var count: nat

    constructor (watch_list: InotiList)
      ensures this.watch_list == watch_list && scan_queue == [] && count == 0
    {
      this.watch_list, mmc_state, scan_queue, count := watch_list, Unknown, [], 0;
    }

    /** ms_get_mmc_state */
    method GetMmcState(cid: string, kept: Option<string>) returns (ret: ScanType)
      ensures ret == ScanTypeFor(cid, kept)
    {
      ret := All;
      if kept.Some? && kept.value == cid {
        ret := Part;
      }
    }

    /** ms_mmc_removed_handler: an INVALID request, and the watches of the card are dropped. */
    method RemovedHandler()
      requires watch_list.Valid()
      modifies this`scan_queue, watch_list, watch_list.Repr
      ensures watch_list.Valid() && watch_list.Repr == old(watch_list.Repr)
      ensures scan_queue == old(scan_queue) + [Request(count, Invalid, External)]
      ensures watch_list.watches == WithoutContaining(old(watch_list.watches), MS_ROOT_PATH_EXTERNAL)
      ensures OthersSurvive(old(watch_list.watches), watch_list.watches)
    {
      OthersAreSpared(watch_list.watches);
      scan_queue := scan_queue + [Request(count, Invalid, External)];
      watch_list.RemoveWatchRecursive(MS_ROOT_PATH_EXTERNAL);
    }

    /** ms_mmc_vconf_cb, but for the directories it makes and the watches it adds when a card is mounted. */
    method VconfCallback(reading: Reading)
      requires watch_list.Valid()
      modifies this, watch_list, watch_list.Repr
      ensures watch_list.Valid() && watch_list.Repr == old(watch_list.Repr)
      ensures mmc_state == reading.status && count == old(count) + 1
      ensures scan_queue == old(scan_queue) + RequestsFor(reading, old(count))
      ensures watch_list.watches == if reading.status.Removed? || reading.status.InsertedNotMounted?
                                    then WithoutContaining(old(watch_list.watches), MS_ROOT_PATH_EXTERNAL)
                                    else old(watch_list.watches)
      ensures OthersSurvive(old(watch_list.watches), watch_list.watches)
    {
      mmc_state := reading.status;
      if mmc_state == Removed || mmc_state == InsertedNotMounted {
        RemovedHandler();
      } else if mmc_state == Mounted {
        var scan_type := GetMmcState(reading.cid, reading.kept);
        scan_queue := scan_queue + [Request(count, scan_type, External)];
      }
      count := count + 1;
    }

    /** A sequence of callbacks. */
    method Callbacks(readings: seq<Reading>)
      requires watch_list.Valid() && count == 0
      modifies this, watch_list, watch_list.Repr
      ensures watch_list.Valid() && scan_queue == old(scan_queue) + Requests(readings)
    {
      ghost var before := scan_queue;
      var i := 0;
      while i < |readings|
        invariant 0 <= i <= |readings| && count == i
        invariant watch_list.Valid() && watch_list.Repr == old(watch_list.Repr)
        invariant scan_queue == before + Requests(readings[..i])
      {
        assert readings[..i + 1][..i] == readings[..i];
        VconfCallback(readings[i]);
        i := i + 1;
      }
      assert readings[..|readings|] == readings;
    }
  }

  predicate Follows(readings: seq<Reading>, i: nat)
    requires 0 < i < |readings|
  {
    readings[i].status != readings[i - 1].status
  }

  /** The callback runs on changes: two readings in a row differ, and none is unknown. */
  ghost predicate Changing(readings: seq<Reading>) {
    && (forall i :: 0 <= i < |readings| ==> !readings[i].status.Unknown?)
    && (forall i {:trigger Follows(readings, i)} :: 0 < i < |readings| ==> Follows(readings, i))
  }

  /** Each callback with a known state produces one request, a new object. */
  lemma {:induction false} OneRequestEach(readings: seq<Reading>)
    requires forall i :: 0 <= i < |readings| ==> !readings[i].status.Unknown?
    ensures var q := Requests(readings);
            |q| == |readings| && forall i :: 0 <= i < |q| ==> [q[i]] == RequestsFor(readings[i], i)
  {
    if readings != [] {
      OneRequestEach(readings[..|readings| - 1]);
    }
  }

  /** A card whose state really changes from callback to callback produces a
      stream in which an INVALID separates any two scans, of distinct objects. */
  lemma ChangesAlternate(readings: seq<Reading>)
    requires Changing(readings)
    ensures Disciplined(Requests(readings), External)
  {
    var q := Requests(readings);
    OneRequestEach(readings);
    forall i | 0 <= i < |q|
      ensures q[i].id == i && Matches(q[i], External)
              && (q[i].scanType.IsScan() <==> readings[i].status.Mounted?)
              && (q[i].scanType.IsScan() || q[i].scanType.Invalid?)
    {
      assert [q[i]][0] == RequestsFor(readings[i], i)[0];
    }
    AllMatch(q, External);
    forall i | 0 < i < |q| && q[i].scanType.IsScan() ensures q[i - 1].scanType.Invalid? {
      assert Follows(readings, i);
    }
  }

  lemma {:induction false} AllMatch(q: seq<Request>, storage: Storage)
    requires OneStorage(q, storage)
    ensures Of(q, storage) == q
  {
    if q != [] {
      AllMatch(q[1..], storage);
    }
  }
}
