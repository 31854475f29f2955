/** Which polls a scan makes for what it reads, and what it has found when one
    of them tells it to stop. */
module ScanPolls {
  import opened Base
  import opened FileTree

  /** The polls made for one directory entry. */
  function EntryPolls(d: Dirent, storage: Storage): nat {
    1 + if storage.External? && !Hidden(d.name) then 1 else 0
  }

  function EntriesPolls(listing: seq<Dirent>, storage: Storage, count: nat): (n: nat)
    requires count <= |listing|
    ensures n >= count
  {
    if count == 0 then 0
    else EntriesPolls(listing, storage, count - 1) + EntryPolls(listing[count - 1], storage)
  }

  /** The polls made before a directory is opened. */
  function OpenPolls(storage: Storage): nat {
    1 + if storage.External? then 1 else 0
  }

  /** The polls of one visit: before opening, for each entry, and at the end of the listing. */
  function VisitPolls(fs: Fs, storage: Storage, path: CString): nat {
    OpenPolls(storage) + if path in fs then EntriesPolls(fs[path], storage, |fs[path]|) + 1 else 0
  }

  function TotalPolls(fs: Fs, storage: Storage, visits: seq<CString>): nat {
    if visits == [] then 0 else VisitPolls(fs, storage, visits[0]) + TotalPolls(fs, storage, visits[1..])
  }

  /** The entries that are not hidden. */
  function Visible(listing: seq<Dirent>): seq<Dirent> {
    if listing == [] then []
    else
      var last := listing[|listing| - 1];
      Visible(listing[..|listing| - 1]) + if "." <= last.name then [] else [last]
  }

  /** power_off is looked at for every entry, and for the external storage the
      card once more for every entry that is not hidden. */
  lemma {:induction false} EntriesPollsCounted(listing: seq<Dirent>, storage: Storage, count: nat)
    requires count <= |listing|
    ensures EntriesPolls(listing, storage, count)
         == count + if storage.External? then |Visible(listing[..count])| else 0
  {
    if count > 0 {
      EntriesPollsCounted(listing, storage, count - 1);
      assert listing[..count][..count - 1] == listing[..count - 1];
      HiddenIff(listing[count - 1].name);
    }
  }

  /** Before a directory is opened each of the two is looked at, and power_off once more at its end. */
  lemma VisitPollsCounted(fs: Fs, storage: Storage, path: CString)
    ensures VisitPolls(fs, storage, path) ==
            (if storage.External? then 2 else 1)
            + if path !in fs then 0
              else |fs[path]| + 1 + if storage.External? then |Visible(fs[path])| else 0
  {
    if path in fs {
      EntriesPollsCounted(fs[path], storage, |fs[path]|);
      assert fs[path][..|fs[path]|] == fs[path];
    }
  }

  lemma {:induction false} EntriesPollsMonotone(listing: seq<Dirent>, storage: Storage, j: nat, count: nat)
    requires j <= count <= |listing|
    ensures EntriesPolls(listing, storage, j) <= EntriesPolls(listing, storage, count)
  {
    if j < count {
      EntriesPollsMonotone(listing, storage, j, count - 1);
    }
  }

  /** How many of the first `count` entries are dealt with when `m` polls are answered no. */
  function EntriesWithin(listing: seq<Dirent>, storage: Storage, m: nat, count: nat): (j: nat)
    requires count <= |listing|
    ensures j <= count
  {
    if count == 0 || EntriesPolls(listing, storage, count) <= m then count
    else EntriesWithin(listing, storage, m, count - 1)
  }

  lemma {:induction false} EntriesWithinIs(listing: seq<Dirent>, storage: Storage, m: nat, j: nat, count: nat)
    requires j <= count <= |listing| && EntriesPolls(listing, storage, j) <= m
    requires j < count ==> m < EntriesPolls(listing, storage, j + 1)
    ensures EntriesWithin(listing, storage, m, count) == j
    decreases count
  {
    if j < count {
      EntriesPollsMonotone(listing, storage, j + 1, count);
      EntriesWithinIs(listing, storage, m, j, count - 1);
    }
  }

  /** The child directories met in an open directory with that many noes. */
  function ReadWithin(fs: Fs, storage: Storage, path: CString, m: nat): seq<CString>
    requires path in fs
  {
    ChildrenIn(fs, path, fs[path], EntriesWithin(fs[path], storage, m, |fs[path]|))
  }

  /** The same for a visit, with the polls before opening. */
  function ChildrenWithin(fs: Fs, storage: Storage, path: CString, m: nat): seq<CString> {
    if path in fs && OpenPolls(storage) <= m then ReadWithin(fs, storage, path, m - OpenPolls(storage)) else []
  }

  lemma ChildrenWithinPrefix(fs: Fs, storage: Storage, path: CString, m: nat)
    ensures ChildrenWithin(fs, storage, path, m) <= Children(fs, path)
    ensures m >= VisitPolls(fs, storage, path) ==> ChildrenWithin(fs, storage, path, m) == Children(fs, path)
  {
    if path in fs && OpenPolls(storage) <= m {
      var j := EntriesWithin(fs[path], storage, m - OpenPolls(storage), |fs[path]|);
      ChildrenInPrefix(fs, path, fs[path], j, |fs[path]|);
    }
  }

  /** What visiting `visits` one after the other finds within `m` noes: everything
      in the visits that were completed, and what the last one came to. */
  function FoundWithin(fs: Fs, storage: Storage, visits: seq<CString>, m: nat): seq<CString> {
    if visits == [] then []
    else
      var v := visits[0];
      if m < VisitPolls(fs, storage, v) then JoinEach(v, ChildrenWithin(fs, storage, v, m))
      else JoinEach(v, Children(fs, v)) + FoundWithin(fs, storage, visits[1..], m - VisitPolls(fs, storage, v))
  }

  /** That is a first part of what there is to find. */
  lemma {:induction false} FoundWithinPrefix(fs: Fs, storage: Storage, visits: seq<CString>, m: nat)
    ensures FoundWithin(fs, storage, visits, m) <= Found(fs, visits)
  {
    if visits != [] {
      var v, rest := visits[0], visits[1..];
      var finds := JoinEach(v, Children(fs, v));
      if m < VisitPolls(fs, storage, v) {
        ChildrenWithinPrefix(fs, storage, v, m);
        JoinEachPrefix(v, ChildrenWithin(fs, storage, v, m), Children(fs, v));
        PrefixExtended(FoundWithin(fs, storage, visits, m), finds, Found(fs, rest));
      } else {
        var left := m - VisitPolls(fs, storage, v);
        FoundWithinPrefix(fs, storage, rest, left);
        PrefixConcat(finds, FoundWithin(fs, storage, rest, left), Found(fs, rest));
      }
    }
  }

  /** And all of it with enough noes. */
  lemma {:induction false} FoundWithinAll(fs: Fs, storage: Storage, visits: seq<CString>, m: nat)
    requires m >= TotalPolls(fs, storage, visits)
    ensures FoundWithin(fs, storage, visits, m) == Found(fs, visits)
  {
    if visits != [] {
      FoundWithinAll(fs, storage, visits[1..], m - VisitPolls(fs, storage, visits[0]));
    }
  }

  lemma JoinEachPrefix(path: CString, some: seq<CString>, all: seq<CString>)
    requires some <= all
    ensures JoinEach(path, some) <= JoinEach(path, all)
  {
  }

  /** Making these visits within `m` noes, after having found `done`, finds `all` in the end. */
  ghost predicate Leads(
      fs: Fs, storage: Storage, visits: seq<CString>, done: seq<CString>, m: nat, all: seq<CString>)
    decreases |visits|
  {
    if visits == [] then done == all
    else
      var v := visits[0];
      if m < VisitPolls(fs, storage, v) then done + JoinEach(v, ChildrenWithin(fs, storage, v, m)) == all
      else
        Leads(fs, storage, visits[1..], done + JoinEach(v, Children(fs, v)), m - VisitPolls(fs, storage, v), all)
  }

  lemma {:induction false} LeadsIff(
      fs: Fs, storage: Storage, visits: seq<CString>, done: seq<CString>, m: nat, all: seq<CString>)
    ensures Leads(fs, storage, visits, done, m, all) <==> done + FoundWithin(fs, storage, visits, m) == all
    decreases |visits|
  {
    if visits == [] {
      assert done + [] == done;
    } else {
      var v := visits[0];
      if m >= VisitPolls(fs, storage, v) {
        var finds, rest := JoinEach(v, Children(fs, v)), m - VisitPolls(fs, storage, v);
        ConcatAssoc(done, finds, FoundWithin(fs, storage, visits[1..], rest));
        LeadsIff(fs, storage, visits[1..], done + finds, rest, all);
      }
    }
  }
}
