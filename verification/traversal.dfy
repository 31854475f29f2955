/** _ms_dir_check: the tree walk that keeps no stack, only parent, Rbrother and
    next links between heap nodes and a depth counter bumped and rolled back in
    two functions. It is proved to produce the list of the recursive walk. */
module Traversal {
  import opened Base
  import opened FileTree
  import opened DirNode
  import opened PathBuffer
  import opened Polls
  import opened ScanPolls
  import opened ScanQueue

  // ----- What is still to be visited, as a value -----

  // `gs[l]` names the current directory at level l followed by its right
  // brothers that have not been visited yet.
  type Levels = seq<seq<CString>>

  function Heads(gs: Levels): (names: seq<CString>)
    requires forall l :: 0 <= l < |gs| ==> |gs[l]| > 0
    ensures |names| == |gs|
    ensures forall l {:trigger names[l]} :: 0 <= l < |gs| ==> names[l] == gs[l][0]
  {
    seq(|gs|, l requires 0 <= l < |gs| => gs[l][0])
  }

  function PathOf(gs: Levels): CString
    requires |gs| > 0 && forall l :: 0 <= l < |gs| ==> |gs[l]| > 0
  {
    JoinAll(Heads(gs))
  }

  /** Every directory waiting on some level has a path that fits the limit. */
  ghost predicate Fits(gs: Levels) {
    && |gs| > 0
    && (forall l :: 0 <= l < |gs| ==> |gs[l]| > 0)
    && if |gs| == 1 then |gs[0]| == 1 && |gs[0][0]| <= MS_FILE_PATH_LEN_MAX
       else Fits(gs[..|gs| - 1]) && AllFit(PathOf(gs[..|gs| - 1]), gs[|gs| - 1])
  }

  lemma PathOfPush(gs: Levels, top: seq<CString>)
    requires |gs| > 0 && |top| > 0 && forall l :: 0 <= l < |gs| ==> |gs[l]| > 0
    ensures PathOf(gs + [top]) == Join(PathOf(gs), top[0])
  {
    assert Heads(gs + [top])[..|gs|] == Heads(gs);
  }

  lemma PathFits(gs: Levels)
    requires Fits(gs)
    ensures |PathOf(gs)| <= MS_FILE_PATH_LEN_MAX
  {
    if |gs| > 1 {
      var init, top := gs[..|gs| - 1], gs[|gs| - 1];
      assert gs == init + [top];
      PathOfPush(init, top);
    }
  }

  lemma FitsPush(gs: Levels, top: seq<CString>)
    requires |gs| > 0 && |top| > 0
    ensures Fits(gs + [top]) <==> Fits(gs) && AllFit(PathOf(gs), top)
  {
    var pushed := gs + [top];
    assert pushed[..|pushed| - 1] == gs && pushed[|pushed| - 1] == top;
    if Fits(gs) {
      assert forall l :: 0 <= l < |pushed| ==> |pushed[l]| > 0;
    }
  }

  /** The visits that follow once the subtree of the current directory is done. */
  ghost function Below(fs: Fs, gs: Levels): seq<CString>
    requires Fits(gs)
  {
    if |gs| == 1 then []
    else
      PathFits(gs[..|gs| - 1]);
      PreorderAll(fs, PathOf(gs[..|gs| - 1]), gs[|gs| - 1][1..]) + Below(fs, gs[..|gs| - 1])
  }

  lemma BelowPush(fs: Fs, gs: Levels, top: seq<CString>)
    requires Fits(gs) && |top| > 0 && AllFit(PathOf(gs), top)
    ensures Fits(gs + [top]) && |PathOf(gs)| <= MS_FILE_PATH_LEN_MAX
    ensures Below(fs, gs + [top]) == PreorderAll(fs, PathOf(gs), top[1..]) + Below(fs, gs)
  {
    FitsPush(gs, top);
    PathFits(gs);
    var pushed := gs + [top];
    assert pushed[..|pushed| - 1] == gs && pushed[|pushed| - 1] == top;
  }

  /** All visits still to come, the current directory first. */
  ghost function Remaining(fs: Fs, gs: Levels): seq<CString>
    requires Fits(gs)
  {
    PathFits(gs);
    Preorder(fs, PathOf(gs)) + Below(fs, gs)
  }

  /** What is left when a group of brothers waits below `gs`: all their subtrees. */
  lemma RemainingPush(fs: Fs, gs: Levels, top: seq<CString>)
    requires Fits(gs) && |top| > 0 && AllFit(PathOf(gs), top)
    ensures Fits(gs + [top]) && |PathOf(gs)| <= MS_FILE_PATH_LEN_MAX
    ensures Remaining(fs, gs + [top]) == PreorderAll(fs, PathOf(gs), top) + Below(fs, gs)
  {
    BelowPush(fs, gs, top);
    PathOfPush(gs, top);
    SplitFirst(fs, PathOf(gs), top, Below(fs, gs));
  }

  lemma SplitFirst(fs: Fs, path: CString, names: seq<CString>, rest: seq<CString>)
    requires |path| <= MS_FILE_PATH_LEN_MAX && |names| > 0 && AllFit(path, names)
    ensures PreorderAll(fs, path, names) + rest
         == Preorder(fs, Join(path, names[0])) + (PreorderAll(fs, path, names[1..]) + rest)
  {
  }

  /** Visiting the current directory and descending into its first child. */
  lemma Descend(fs: Fs, gs: Levels, kids: seq<CString>)
    requires Fits(gs) && kids == Children(fs, PathOf(gs))
    ensures kids == [] ==> Remaining(fs, gs) == [PathOf(gs)] + Below(fs, gs)
    ensures kids != [] ==> Fits(gs + [kids]) && Remaining(fs, gs) == [PathOf(gs)] + Remaining(fs, gs + [kids])
  {
    PathFits(gs);
    var path := PathOf(gs);
    ChildrenFit(fs, path);
    var under, rest := PreorderAll(fs, path, kids), Below(fs, gs);
    assert Preorder(fs, path) == [path] + under;
    assert Remaining(fs, gs) == ([path] + under) + rest == [path] + (under + rest);
    if kids == [] {
      assert under + rest == rest;
    } else {
      RemainingPush(fs, gs, kids);
    }
  }

  /** Climbing out of a level whose last brother is done, or moving on to a brother. */
  lemma Advance(fs: Fs, gs: Levels, top: seq<CString>)
    requires |gs| > 0 && |top| > 0 && Fits(gs + [top])
    ensures Fits(gs)
    ensures |top| == 1 ==> Below(fs, gs + [top]) == Below(fs, gs)
    ensures |top| > 1 ==> Fits(gs + [top[1..]]) && Below(fs, gs + [top]) == Remaining(fs, gs + [top[1..]])
  {
    FitsPush(gs, top);
    BelowPush(fs, gs, top);
    if |top| > 1 {
      assert forall n :: n in top[1..] ==> n in top;
      RemainingPush(fs, gs, top[1..]);
    } else {
      assert PreorderAll(fs, PathOf(gs), top[1..]) == [];
    }
  }

  // ----- How the heap nodes represent it -----

  ghost function NamesOf(groups: seq<seq<DirScanInfo>>): (gs: Levels)
    ensures |gs| == |groups|
    ensures forall l {:trigger gs[l]} :: 0 <= l < |gs| ==> gs[l] == Names(groups[l])
  {
    seq(|groups|, l requires 0 <= l < |groups| => Names(groups[l]))
  }

  ghost function Spine(groups: seq<seq<DirScanInfo>>): (chain: seq<DirScanInfo>)
    requires forall l :: 0 <= l < |groups| ==> |groups[l]| > 0
    ensures |chain| == |groups|
    ensures forall l {:trigger chain[l]} :: 0 <= l < |groups| ==> chain[l] == groups[l][0]
  {
    seq(|groups|, l requires 0 <= l < |groups| => groups[l][0])
  }

  ghost function Top(groups: seq<seq<DirScanInfo>>): DirScanInfo
    requires |groups| > 0 && |groups[|groups| - 1]| > 0
  {
    groups[|groups| - 1][0]
  }

  ghost function After(list: seq<DirScanInfo>, i: nat): DirScanInfo?
    requires i < |list|
  {
    if i + 1 < |list| then list[i + 1] else null
  }

  ghost function ParentAt(groups: seq<seq<DirScanInfo>>, l: nat): DirScanInfo?
    requires l < |groups| && forall i :: 0 <= i < |groups| ==> |groups[i]| > 0
  {
    if l == 0 then null else groups[l - 1][0]
  }

  /** A sibling group under `parent`, linked from left to right by Rbrother. */
  ghost predicate Brothers(group: seq<DirScanInfo>, parent: DirScanInfo?)
    reads group`parent, group`Rbrother
  {
    && (forall k {:trigger group[k].parent} :: 0 <= k < |group| ==> group[k].parent == parent)
    && (forall k {:trigger group[k].Rbrother} :: 0 <= k < |group| ==> group[k].Rbrother == After(group, k))
  }

  ghost predicate Linked(groups: seq<seq<DirScanInfo>>)
    reads (set l, k | 0 <= l < |groups| && 0 <= k < |groups[l]| :: groups[l][k])`parent
    reads (set l, k | 0 <= l < |groups| && 0 <= k < |groups[l]| :: groups[l][k])`Rbrother
  {
    && |groups| > 0
    && |groups[0]| == 1
    && (forall l :: 0 <= l < |groups| ==> |groups[l]| > 0)
    && (forall l {:trigger ParentAt(groups, l)} :: 0 <= l < |groups| ==> Brothers(groups[l], ParentAt(groups, l)))
  }

  /** The `next` chain runs through all nodes in the order of their creation. */
  ghost predicate Chained(nodes: seq<DirScanInfo>)
    reads nodes`next
  {
    forall i {:trigger nodes[i].next} :: 0 <= i < |nodes| ==> nodes[i].next == After(nodes, i)
  }

  /** The `next` chain from the root to the node that was allocated last. */
  ghost predicate Held(nodes: seq<DirScanInfo>, root: DirScanInfo, last: DirScanInfo)
    reads nodes`next
  {
    Chained(nodes) && |nodes| > 0 && nodes[0] == root && last == nodes[|nodes| - 1]
  }

  lemma SpineIsChain(groups: seq<seq<DirScanInfo>>)
    requires Linked(groups)
    ensures IsChain(Spine(groups))
    ensures Names(Spine(groups)) == Heads(NamesOf(groups))
  {
    forall l | 0 <= l < |groups| ensures groups[l][0].parent == ParentAt(groups, l) {
      assert Brothers(groups[l], ParentAt(groups, l));
    }
  }

  // ----- The environment and the scanner's methods -----

  /** What a scan is given: the file system, the storage, and the answers to its polls. */
  datatype Job = Job(fs: Fs, storage: Storage, polls: Script)

  /** The polls made for the entries of an open directory. */
  function AllEntries(job: Job, path: CString): nat
    requires path in job.fs
  {
    EntriesPolls(job.fs[path], job.storage, |job.fs[path]|)
  }

  /** The variables of the inner loop: the number of child directories found,
      the first of them - or, as long as there is none, the current directory -
      and the node that was allocated last. */
  datatype Cursor = Cursor(find_folder: nat, tmp_root: DirScanInfo, prv_node: DirScanInfo)

  /** Where it runs: the nodes from the root to the current directory, and all
      nodes allocated before. */
  datatype Place = Place(chain: seq<DirScanInfo>, base: seq<DirScanInfo>)

  /** _ms_scan_add_node */
  method ScanAddNode(scan: ScanList, node: DirScanInfo, depth: int, ghost chain: seq<DirScanInfo>, ghost path: CString)
    returns (err: int)
    requires scan.Valid()
    requires IsChain(chain) && node == chain[|chain| - 1] && depth == |chain| - 1 && path == JoinAll(Names(chain))
    modifies scan, scan.Repr
    ensures scan.Valid() && fresh(scan.Repr - old(scan.Repr))
    ensures err == if |path| <= MS_FILE_PATH_LEN_MAX then MS_ERR_NONE else MS_ERR_INVALID_DIR_PATH
    ensures scan.Names() == if err == MS_ERR_NONE then AddUnique(old(scan.Names()), path) else old(scan.Names())
  {
    var full_path := new char[MS_FILE_PATH_LEN_MAX + 1];
    RoomForIff(Names(chain));
    err := GetFullPathFromNode(node, full_path, depth, chain);
    if err != MS_ERR_NONE {
      return MS_ERR_INVALID_DIR_PATH;
    }
    var name := StrDup(full_path, path);
    scan.Add(name);
  }

  lemma LinkedPush(groups: seq<seq<DirScanInfo>>, kids: seq<DirScanInfo>)
    requires Linked(groups) && |kids| > 0 && Brothers(kids, Top(groups))
    ensures Linked(groups + [kids])
  {
    var pushed := groups + [kids];
    assert |pushed[0]| == 1;
    forall l | 0 <= l < |pushed| ensures |pushed[l]| > 0 && Brothers(pushed[l], ParentAt(pushed, l)) {
      if l < |groups| {
        assert Brothers(groups[l], ParentAt(groups, l));
      }
    }
  }

  /** A child directory was found: a fresh node becomes the new last brother
      and the new end of the `next` chain. */
  method LinkChild(
      name: CString, tmp_root: DirScanInfo, prv_node: DirScanInfo, find_folder: nat,
      ghost parent: DirScanInfo, ghost nodes: seq<DirScanInfo>, ghost kids: seq<DirScanInfo>)
    returns (cur_node: DirScanInfo)
    requires Chained(nodes) && |nodes| > 0 && prv_node == nodes[|nodes| - 1]
    requires Brothers(kids, parent) && find_folder == |kids| && (kids != [] ==> prv_node == kids[|kids| - 1])
    requires tmp_root == if kids == [] then parent else kids[0]
    modifies prv_node`next, (if find_folder > 0 then {prv_node} else {})`Rbrother
    ensures fresh(cur_node) && cur_node.name == name && cur_node.parent == parent
    ensures Chained(nodes + [cur_node]) && Brothers(kids + [cur_node], parent)
  {
    NoNodeTwice(nodes);
    NoBrotherTwice(kids, parent);
    cur_node := new DirScanInfo(name);
    if find_folder == 0 {
      cur_node.parent := tmp_root;
    } else {
      cur_node.parent := tmp_root.parent;
      prv_node.Rbrother := cur_node;
    }
    prv_node.next := cur_node;
    ChainedSnoc(nodes, cur_node);
    BrothersSnoc(kids, cur_node, parent);
  }

  /** A `next` chain that ends never meets a node twice. */
  lemma {:induction false} NodesDiffer(nodes: seq<DirScanInfo>, i: nat, j: nat)
    requires Chained(nodes) && i < j < |nodes|
    ensures nodes[i] != nodes[j]
    decreases |nodes| - j
  {
    assert nodes[i].next == After(nodes, i) && nodes[j].next == After(nodes, j);
    if j + 1 < |nodes| {
      NodesDiffer(nodes, i + 1, j + 1);
    }
  }

  lemma NoNodeTwice(nodes: seq<DirScanInfo>)
    requires Chained(nodes)
    ensures NoDup(nodes)
  {
    forall i, j | 0 <= i < j < |nodes| ensures nodes[i] != nodes[j] {
      NodesDiffer(nodes, i, j);
    }
  }

  lemma {:induction false} BrothersDiffer(kids: seq<DirScanInfo>, parent: DirScanInfo, i: nat, j: nat)
    requires Brothers(kids, parent) && i < j < |kids|
    ensures kids[i] != kids[j]
    decreases |kids| - j
  {
    assert kids[i].Rbrother == After(kids, i) && kids[j].Rbrother == After(kids, j);
    if j + 1 < |kids| {
      BrothersDiffer(kids, parent, i + 1, j + 1);
    }
  }

  lemma NoBrotherTwice(kids: seq<DirScanInfo>, parent: DirScanInfo)
    requires Brothers(kids, parent)
    ensures NoDup(kids)
  {
    forall i, j | 0 <= i < j < |kids| ensures kids[i] != kids[j] {
      BrothersDiffer(kids, parent, i, j);
    }
  }

  lemma ChainedSnoc(nodes: seq<DirScanInfo>, last: DirScanInfo)
    requires |nodes| > 0 && NoDup(nodes) && last.next == null && nodes[|nodes| - 1].next == last
    requires forall i {:trigger nodes[i].next} ::
               0 <= i < |nodes| && nodes[i] != nodes[|nodes| - 1] ==> nodes[i].next == After(nodes, i)
    ensures Chained(nodes + [last])
  {
    var longer := nodes + [last];
    forall i | 0 <= i < |longer| ensures longer[i].next == After(longer, i) {
      if i < |nodes| - 1 {
        assert nodes[i].next == After(nodes, i);
      }
    }
  }

  lemma BrothersSnoc(kids: seq<DirScanInfo>, last: DirScanInfo, parent: DirScanInfo)
    requires NoDup(kids) && last.Rbrother == null && last.parent == parent
    requires forall k {:trigger kids[k].parent} :: 0 <= k < |kids| ==> kids[k].parent == parent
    requires forall k {:trigger kids[k].Rbrother} ::
               0 <= k < |kids| && kids[k] != kids[|kids| - 1] ==> kids[k].Rbrother == After(kids, k)
    requires kids != [] ==> kids[|kids| - 1].Rbrother == last
    ensures Brothers(kids + [last], parent)
  {
    var longer := kids + [last];
    forall k | 0 <= k < |longer| ensures longer[k].parent == parent && longer[k].Rbrother == After(longer, k) {
      if k < |kids| {
        assert kids[k].parent == parent;
        assert k < |kids| - 1 ==> kids[k].Rbrother == After(kids, k);
      }
    }
  }

  /** What the inner loop has built: the nodes of `kids` under the current
      directory, chained behind those before, with the cursor on them. */
  ghost predicate Gathered(at: Place, kids: seq<DirScanInfo>, c: Cursor)
    reads at.chain`parent, (at.base + kids)`next, kids`parent, kids`Rbrother
  {
    match at
    case Place(chain, base) =>
      && IsChain(chain)
      && |base| > 0 && Chained(base + kids) && c.prv_node == (base + kids)[|base + kids| - 1]
      && Brothers(kids, chain[|chain| - 1])
      && c.find_folder == |kids| && c.tmp_root == if kids == [] then chain[|chain| - 1] else kids[0]
  }

  /** `path` and `depth + 1` are those of the current directory. */
  ghost predicate StandsAt(at: Place, path: CString, depth: nat) {
    |at.chain| > 0 && depth == |at.chain| && path == JoinAll(Names(at.chain))
  }

  /** A node for one child directory, linked under the current one. */
  method AddNode(name: CString, c0: Cursor, ghost at: Place, ghost kids: seq<DirScanInfo>) returns (c: Cursor)
    requires Gathered(at, kids, c0)
    modifies c0.prv_node`next, (if c0.find_folder > 0 then {c0.prv_node} else {})`Rbrother
    ensures fresh(c.prv_node) && c.prv_node.name == name && Names(kids + [c.prv_node]) == Names(kids) + [name]
    ensures Gathered(at, kids + [c.prv_node], c)
    ensures IsChain(at.chain + [c.prv_node])
    ensures JoinAll(Names(at.chain + [c.prv_node])) == Join(JoinAll(Names(at.chain)), name)
  {
    ghost var chain, base := at.chain, at.base;
    assert kids != [] ==> c0.prv_node == kids[|kids| - 1];
    var cur_node := LinkChild(name, c0.tmp_root, c0.prv_node, c0.find_folder, chain[|chain| - 1], base + kids, kids);
    PathOfChild(chain, cur_node);
    assert base + (kids + [cur_node]) == (base + kids) + [cur_node];
    c := Cursor(c0.find_folder + 1, if c0.find_folder == 0 then cur_node else c0.tmp_root, cur_node);
  }

  /** One child directory: link its node and put its path on the scan list. */
  method AddChild(
      scan: ScanList, name: CString, c0: Cursor, depth: nat,
      ghost path: CString, ghost at: Place, ghost kids: seq<DirScanInfo>)
    returns (c: Cursor)
    requires scan.Valid() && Gathered(at, kids, c0) && StandsAt(at, path, depth)
    requires |Join(path, name)| <= MS_FILE_PATH_LEN_MAX
    modifies scan, scan.Repr, c0.prv_node`next, (if c0.find_folder > 0 then {c0.prv_node} else {})`Rbrother
    ensures scan.Valid() && fresh(scan.Repr - old(scan.Repr))
    ensures fresh(c.prv_node) && Names(kids + [c.prv_node]) == Names(kids) + [name]
    ensures Gathered(at, kids + [c.prv_node], c)
    ensures scan.Names() == AddUnique(old(scan.Names()), Join(path, name))
  {
    c := AddNode(name, c0, at, kids);
    ListNode(scan, c, depth, Join(path, name), at, kids + [c.prv_node]);
  }

  /** The path of a new node, put on the scan list. */
  method ListNode(
      scan: ScanList, c: Cursor, depth: nat, ghost path: CString, ghost at: Place, ghost kids: seq<DirScanInfo>)
    requires scan.Valid() && Gathered(at, kids, c)
    requires IsChain(at.chain + [c.prv_node]) && path == JoinAll(Names(at.chain + [c.prv_node])) && depth == |at.chain|
    requires |path| <= MS_FILE_PATH_LEN_MAX
    modifies scan, scan.Repr
    ensures scan.Valid() && fresh(scan.Repr - old(scan.Repr)) && scan.Names() == AddUnique(old(scan.Names()), path)
    ensures Gathered(at, kids, c)
  {
    var err := ScanAddNode(scan, c.prv_node, depth, at.chain + [c.prv_node], path);
  }

  lemma PathOfChild(chain: seq<DirScanInfo>, node: DirScanInfo)
    requires IsChain(chain) && node.parent == chain[|chain| - 1]
    ensures IsChain(chain + [node]) && JoinAll(Names(chain + [node])) == Join(JoinAll(Names(chain)), node.name)
  {
    assert Names(chain + [node])[..|chain|] == Names(chain);
  }

  ghost function ListEach(list: seq<CString>, path: CString, names: seq<CString>): seq<CString> {
    if names == [] then list
    else AddUnique(ListEach(list, path, names[..|names| - 1]), Join(path, names[|names| - 1]))
  }

  lemma {:induction false} ListEachIsAddAll(list: seq<CString>, path: CString, names: seq<CString>)
    ensures ListEach(list, path, names) == AddAll(list, JoinEach(path, names))
  {
    if names != [] {
      var init, last := names[..|names| - 1], names[|names| - 1];
      ListEachIsAddAll(list, path, init);
      assert JoinEach(path, names) == JoinEach(path, init) + [Join(path, last)];
      AddAllConcat(list, JoinEach(path, init), [Join(path, last)]);
    }
  }

  datatype Verdict = Stop | Skip | Take

  /** What the inner loop does with one directory entry. */
  method Examine(job: Job, path: CString, entry: Dirent, now: nat) returns (verdict: Verdict, later: nat)
    ensures !verdict.Stop? ==> (verdict.Take? <==> IsChild(job.fs, path, entry))
    ensures StopsAtFirst(job.polls, now, later, verdict.Stop?) && later + 1 == now + EntryPolls(entry, job.storage)
  {
    if Hidden(entry.name) {
      return Skip, now;
    }
    var removed;
    removed, later := SeesCardRemoved(job.polls, now, job.storage);
    if removed {
      return Stop, later;
    }
    if !entry.dtype.DirBit() {
      return Skip, later;
    }
    var get_path := StrAppend(path, entry.name);
    verdict := if get_path.Ok? && get_path.value in job.fs then Take else Skip;
  }

  /** One round of the inner loop: poll, examine the entry, add it if it is a child. */
  method ProcessEntry(
      job: Job, scan: ScanList, now: nat, path: CString, entry: Dirent, c0: Cursor, depth: nat,
      ghost at: Place, ghost kids0: seq<DirScanInfo>)
    returns (stopped: bool, later: nat, c: Cursor, ghost kids: seq<DirScanInfo>)
    requires scan.Valid() && Gathered(at, kids0, c0) && StandsAt(at, path, depth)
    modifies scan, scan.Repr, c0.prv_node`next, (if c0.find_folder > 0 then {c0.prv_node} else {})`Rbrother
    ensures scan.Valid() && fresh(scan.Repr - old(scan.Repr))
    ensures EndsBy(job.polls, now, later, now + EntryPolls(entry, job.storage), stopped)
    ensures Gathered(at, kids, c)
    ensures if !stopped && IsChild(job.fs, path, entry)
            then fresh(c.prv_node) && kids == kids0 + [c.prv_node] && Names(kids) == Names(kids0) + [entry.name]
                 && scan.Names() == AddUnique(old(scan.Names()), Join(path, entry.name))
            else kids == kids0 && c == c0 && scan.Names() == old(scan.Names())
  {
    c, kids := c0, kids0;
    stopped, later := SeesPowerOff(job.polls, now);
    if !stopped {
      var verdict;
      verdict, later := Examine(job, path, entry, later);
      stopped := verdict.Stop?;
      GoOn(job.polls, now, now + 1, later, stopped);
      if verdict.Take? {
        c := AddChild(scan, entry.name, c0, depth, path, at, kids);
        kids := kids + [c.prv_node];
      }
    }
  }

  /** After the first `j` entries of an open directory, with the polls made for
      them: `names` are the child directories met, and they were added to the list. */
  ghost predicate UpTo(
      job: Job, path: CString, now: nat, start: seq<CString>, j: nat, later: nat, names: seq<CString>,
      list: seq<CString>)
    requires path in job.fs && j <= |job.fs[path]|
  {
    match job
    case Job(fs, storage, polls) =>
      && EndsBy(polls, now, later, now + EntriesPolls(fs[path], storage, j), false)
      && names == ChildrenIn(fs, path, fs[path], j) && list == ListEach(start, path, names)
  }

  /** The same for a pass over the directory that ends with the poll before
      `finish`, if it is not stopped. */
  ghost predicate ReadTo(
      job: Job, path: CString, now: nat, start: seq<CString>, finish: nat, stopped: bool, later: nat,
      names: seq<CString>, list: seq<CString>)
    requires path in job.fs
  {
    match job
    case Job(fs, storage, polls) =>
      && EndsBy(polls, now, later, finish, stopped) && now <= finish
      && names == ReadWithin(fs, storage, path, Noes(polls, now, finish)) && list == ListEach(start, path, names)
  }

  /** Between two entries, or stopped at one. */
  ghost predicate Reading(
      job: Job, path: CString, now: nat, start: seq<CString>, j: nat, stopped: bool, later: nat, names: seq<CString>,
      list: seq<CString>)
    requires path in job.fs && j <= |job.fs[path]|
  {
    match stopped
    case true =>
      ReadTo(job, path, now, start, now + AllEntries(job, path), true, later, names, list)
    case false => UpTo(job, path, now, start, j, later, names, list)
  }

  /** Stopped at entry `j`, or done with all of them. */
  lemma EntriesRead(
      job: Job, path: CString, now: nat, start: seq<CString>, j: nat, mid: nat, later: nat, names: seq<CString>,
      list: seq<CString>, stopped: bool)
    requires path in job.fs && j <= |job.fs[path]| && UpTo(job, path, now, start, j, mid, names, list)
    requires if j == |job.fs[path]| then later == mid && !stopped
             else stopped && EndsBy(job.polls, mid, later, mid + EntryPolls(job.fs[path][j], job.storage), true)
    ensures ReadTo(job, path, now, start, now + AllEntries(job, path), stopped, later,
                   names, list)
  {
    var listing, storage := job.fs[path], job.storage;
    var finish := now + EntriesPolls(listing, storage, |listing|);
    if stopped {
      EntriesPollsMonotone(listing, storage, j + 1, |listing|);
      GoOn(job.polls, now, mid, later, true);
    }
    PassPolls(job.polls, now, later, finish, stopped);
    EntriesWithinIs(listing, storage, Noes(job.polls, now, finish), j, |listing|);
  }

  /** The round for entry `j` of the directory; `since` is the first poll and
      `list` the scan list of the visit. */
  method NextEntry(
      job: Job, scan: ScanList, now: nat, path: CString, j: nat, c0: Cursor, depth: nat,
      ghost at: Place, ghost kids0: seq<DirScanInfo>, ghost since: nat, ghost list: seq<CString>)
    returns (stopped: bool, later: nat, c: Cursor, ghost kids: seq<DirScanInfo>)
    requires scan.Valid() && Gathered(at, kids0, c0) && StandsAt(at, path, depth)
    requires path in job.fs && j < |job.fs[path]|
    requires Reading(job, path, since, list, j, false, now, Names(kids0), scan.Names())
    modifies scan, scan.Repr, c0.prv_node`next, (if c0.find_folder > 0 then {c0.prv_node} else {})`Rbrother
    ensures scan.Valid() && fresh(scan.Repr - old(scan.Repr))
    ensures Gathered(at, kids, c)
    ensures fresh(c.prv_node) || (kids == kids0 && c == c0)
    ensures Reading(job, path, since, list, j + 1, stopped, later, Names(kids), scan.Names())
  {
    stopped, later, c, kids := ProcessEntry(job, scan, now, path, job.fs[path][j], c0, depth, at, kids0);
    if stopped {
      EntriesRead(job, path, since, list, j, now, later, Names(kids), scan.Names(), true);
    } else {
      GoOn(job.polls, since, now, later, false);
    }
  }

  /** The inner loop of _ms_dir_check: one new node per child directory, linked
      under the current one, in listing order; all of them reach the scan list. */
  method CollectListed(
      job: Job, scan: ScanList, now: nat, path: CString, c0: Cursor, depth: nat, ghost at: Place)
    returns (stopped: bool, later: nat, c: Cursor, ghost kids: seq<DirScanInfo>)
    requires scan.Valid() && path in job.fs && Gathered(at, [], c0) && StandsAt(at, path, depth)
    modifies scan, scan.Repr, c0.prv_node`next
    ensures scan.Valid() && fresh(scan.Repr - old(scan.Repr))
    ensures Gathered(at, kids, c)
    ensures c.prv_node == c0.prv_node || fresh(c.prv_node)
    ensures ReadTo(job, path, now, old(scan.Names()),
                   now + AllEntries(job, path), stopped, later,
                   Names(kids), scan.Names())
  {
    stopped, later, c, kids := false, now, c0, [];
    ghost var list := scan.Names();
    var j := 0;
    while j < |job.fs[path]| && !stopped
      invariant 0 <= j <= |job.fs[path]|
      invariant scan.Valid() && fresh(scan.Repr - old(scan.Repr))
      invariant Gathered(at, kids, c)
      invariant fresh(c.prv_node) || (kids == [] && c == c0)
      invariant Reading(job, path, now, list, j, stopped, later, Names(kids), scan.Names())
    {
      stopped, later, c, kids := NextEntry(job, scan, later, path, j, c, depth, at, kids, now, list);
      j := j + 1;
    }
    if !stopped {
      EntriesRead(job, path, now, list, j, later, later, Names(kids), scan.Names(), false);
    }
  }

  /** The same with the last poll: readdir_r delivers no entry any more, but
      power_off is looked at once again. */
  method CollectChildren(
      job: Job, scan: ScanList, now: nat, path: CString, c0: Cursor, depth: nat, ghost at: Place)
    returns (stopped: bool, later: nat, c: Cursor, ghost kids: seq<DirScanInfo>)
    requires scan.Valid() && path in job.fs && Gathered(at, [], c0) && StandsAt(at, path, depth)
    modifies scan, scan.Repr, c0.prv_node`next
    ensures scan.Valid() && fresh(scan.Repr - old(scan.Repr))
    ensures Gathered(at, kids, c)
    ensures c.prv_node == c0.prv_node || fresh(c.prv_node)
    ensures ReadTo(job, path, now, old(scan.Names()),
                   now + AllEntries(job, path) + 1, stopped, later,
                   Names(kids), scan.Names())
  {
    ghost var list := scan.Names();
    stopped, later, c, kids := CollectListed(job, scan, now, path, c0, depth, at);
    ghost var mid, cut := later, stopped;
    if !stopped {
      stopped, later := SeesPowerOff(job.polls, later);
    }
    OneMorePoll(job, path, now, list, mid, cut, later, stopped, Names(kids), scan.Names());
  }

  lemma OneMorePoll(
      job: Job, path: CString, now: nat, start: seq<CString>, mid: nat, cut: bool, later: nat, stopped: bool,
      names: seq<CString>, list: seq<CString>)
    requires path in job.fs
    requires ReadTo(job, path, now, start, now + AllEntries(job, path), cut, mid,
                    names, list)
    requires if cut then stopped && later == mid else EndsBy(job.polls, mid, later, mid + 1, stopped)
    ensures ReadTo(job, path, now, start, now + AllEntries(job, path) + 1, stopped, later,
                   names, list)
  {
    var listing, storage := job.fs[path], job.storage;
    var finish := now + EntriesPolls(listing, storage, |listing|);
    PassPolls(job.polls, now, mid, finish, cut);
    if !cut {
      GoOn(job.polls, now, mid, later, stopped);
      EntriesWithinIs(listing, storage, Noes(job.polls, now, finish), |listing|, |listing|);
      EntriesWithinIs(listing, storage, Noes(job.polls, now, finish + 1), |listing|, |listing|) by {
        PassPolls(job.polls, now, later, finish + 1, stopped);
      }
    }
    PassPolls(job.polls, now, later, finish + 1, stopped);
  }

  // ----- Moving on: brother, climb, or finished -----

  ghost function Pop(groups: seq<seq<DirScanInfo>>): seq<seq<DirScanInfo>>
    requires |groups| > 0
  {
    groups[..|groups| - 1]
  }

  /** The groups once the current directory gives way to its right brother. */
  ghost function Move(groups: seq<seq<DirScanInfo>>): seq<seq<DirScanInfo>>
    requires |groups| > 0 && |groups[|groups| - 1]| > 0
  {
    Pop(groups) + [groups[|groups| - 1][1..]]
  }

  lemma LinkedPop(groups: seq<seq<DirScanInfo>>)
    requires Linked(groups) && |groups| > 1
    ensures Linked(Pop(groups))
    ensures |groups[|groups| - 1]| > 1 ==> Linked(Move(groups))
    ensures Top(groups).parent == Top(Pop(groups)) && Top(groups).Rbrother == After(groups[|groups| - 1], 0)
  {
    var init, top := Pop(groups), groups[|groups| - 1];
    forall l | 0 <= l < |init| ensures Brothers(init[l], ParentAt(init, l)) {
      assert init[l] == groups[l] && ParentAt(init, l) == ParentAt(groups, l);
    }
    assert Brothers(top, ParentAt(groups, |groups| - 1));
    if |top| > 1 {
      BrothersTail(top, Top(init));
      LinkedPush(init, top[1..]);
    }
  }

  lemma BrothersTail(group: seq<DirScanInfo>, parent: DirScanInfo?)
    requires Brothers(group, parent) && |group| > 1
    ensures Brothers(group[1..], parent)
  {
    var tail := group[1..];
    forall k | 0 <= k < |tail| ensures tail[k].parent == parent && tail[k].Rbrother == After(tail, k) {
      assert tail[k] == group[k + 1] && group[k + 1].Rbrother == After(group, k + 1);
    }
  }

  /** The visits to come, before and after climbing or moving to a brother. */
  lemma BelowPop(fs: Fs, groups: seq<seq<DirScanInfo>>)
    requires Linked(groups) && |groups| > 1 && Fits(NamesOf(groups))
    ensures Fits(NamesOf(Pop(groups)))
    ensures |groups[|groups| - 1]| == 1 ==> Below(fs, NamesOf(groups)) == Below(fs, NamesOf(Pop(groups)))
    ensures |groups[|groups| - 1]| > 1 ==>
              Fits(NamesOf(Move(groups))) && Below(fs, NamesOf(groups)) == Remaining(fs, NamesOf(Move(groups)))
  {
    var init, top := Pop(groups), groups[|groups| - 1];
    assert groups == init + [top];
    NamesOfPush(init, top);
    if |top| > 1 {
      NamesOfPush(init, top[1..]);
      assert Names(top[1..]) == Names(top)[1..];
    }
    Advance(fs, NamesOf(init), Names(top));
  }

  lemma NamesOfPush(groups: seq<seq<DirScanInfo>>, top: seq<DirScanInfo>)
    ensures NamesOf(groups + [top]) == NamesOf(groups) + [Names(top)]
  {
  }

  /** _ms_scan_get_next_path_from_current_node. `depth` is one too high on
      entry when no child was found; on return it is the level of the new
      current directory again. */
  method GetNextPath(
      find_folder: nat, current_root: DirScanInfo, real_root: DirScanInfo, depth0: int,
      ghost fs: Fs, ghost groups0: seq<seq<DirScanInfo>>)
    returns (err: int, next_root: DirScanInfo?, path: CString, depth: int, ghost groups: seq<seq<DirScanInfo>>)
    requires Linked(groups0) && Fits(NamesOf(groups0))
    requires current_root == Top(groups0) && real_root == groups0[0][0]
    requires depth0 == if find_folder == 0 then |groups0| else |groups0| - 1
    ensures err == MS_ERR_NONE
    ensures next_root == null ==> find_folder == 0 && Below(fs, NamesOf(groups0)) == []
    ensures next_root != null ==>
              && Linked(groups) && Fits(NamesOf(groups)) && groups[0] == groups0[0]
              && next_root == Top(groups) && depth == |groups| - 1 && path == PathOf(NamesOf(groups))
              && if find_folder > 0 then groups == groups0
                 else Below(fs, NamesOf(groups0)) == Remaining(fs, NamesOf(groups))
  {
    next_root, depth, groups, path := current_root, depth0, groups0, "";
    if find_folder == 0 {
      next_root, depth, groups := FindNext(current_root, real_root, depth0, fs, groups0);
      if next_root == null {
        return MS_ERR_NONE, null, path, depth, groups;
      }
    }
    err, path := PathOfNode(next_root, depth, groups);
  }

  method PathOfNode(node: DirScanInfo, depth: int, ghost groups: seq<seq<DirScanInfo>>)
    returns (err: int, path: CString)
    requires Linked(groups) && Fits(NamesOf(groups)) && node == Top(groups) && depth == |groups| - 1
    ensures err == MS_ERR_NONE && path == PathOf(NamesOf(groups))
  {
    SpineIsChain(groups);
    PathFits(NamesOf(groups));
    path := "";
    var get_path := new char[MS_FILE_PATH_LEN_MAX + 1];
    RoomForIff(Names(Spine(groups)));
    err := GetFullPathFromNode(node, get_path, depth, Spine(groups));
    if err != MS_ERR_NONE {
      return;
    }
    path := StrDup(get_path, PathOf(NamesOf(groups)));
  }

  /** The root is the only node without a parent and has no brother. */
  lemma RootAlone(groups: seq<seq<DirScanInfo>>)
    requires Linked(groups)
    ensures Top(groups).parent == null <==> |groups| == 1
    ensures |groups| == 1 ==> Top(groups).Rbrother == null
    ensures |groups| > 1 ==> Top(groups) != groups[0][0]
  {
    assert Brothers(groups[0], ParentAt(groups, 0));
    assert Brothers(groups[|groups| - 1], ParentAt(groups, |groups| - 1));
    assert groups[0][0].parent == null && groups[0][0].Rbrother == After(groups[0], 0);
  }

  /** What the links of the current node say about the visits to come. */
  lemma LinksTell(fs: Fs, groups: seq<seq<DirScanInfo>>)
    requires Linked(groups) && Fits(NamesOf(groups))
    ensures if |groups| == 1 then Top(groups).parent == null && Top(groups).Rbrother == null else
              && Linked(Pop(groups)) && Fits(NamesOf(Pop(groups)))
              && Top(groups).parent == Top(Pop(groups))
              && (Top(groups).parent == groups[0][0] <==> |groups| == 2)
              && if Top(groups).Rbrother == null then Below(fs, NamesOf(groups)) == Below(fs, NamesOf(Pop(groups)))
                 else
                   && Linked(Move(groups)) && Fits(NamesOf(Move(groups)))
                   && Top(groups).Rbrother == Top(Move(groups))
                   && Below(fs, NamesOf(groups)) == Remaining(fs, NamesOf(Move(groups)))
  {
    RootAlone(groups);
    if |groups| > 1 {
      LinkedPop(groups);
      BelowPop(fs, groups);
      RootAlone(Pop(groups));
    }
  }

  /** The brother-or-climb search inside it. */
  method FindNext(
      current_root: DirScanInfo, real_root: DirScanInfo, depth0: int, ghost fs: Fs,
      ghost groups0: seq<seq<DirScanInfo>>)
    returns (next_root: DirScanInfo?, depth: int, ghost groups: seq<seq<DirScanInfo>>)
    requires Linked(groups0) && Fits(NamesOf(groups0))
    requires current_root == Top(groups0) && real_root == groups0[0][0] && depth0 == |groups0|
    ensures next_root == null ==> depth == 0 && Below(fs, NamesOf(groups0)) == []
    ensures next_root != null ==>
              && Linked(groups) && Fits(NamesOf(groups)) && groups[0] == groups0[0]
              && next_root == Top(groups) && depth == |groups| - 1
              && Below(fs, NamesOf(groups0)) == Remaining(fs, NamesOf(groups))
  {
    var cur := current_root;
    depth, groups := depth0, groups0;
    LinksTell(fs, groups);
    if cur.Rbrother != null {
      next_root, groups := cur.Rbrother, Move(groups);
      depth := depth - 1;
      return;
    }
    while true
      invariant Linked(groups) && Fits(NamesOf(groups)) && groups[0] == groups0[0]
      invariant cur == Top(groups) && cur.Rbrother == null && depth == |groups|
      invariant Below(fs, NamesOf(groups)) == Below(fs, NamesOf(groups0))
      decreases |groups|
    {
      LinksTell(fs, groups);
      if cur.parent == real_root || cur.parent == null {
        if |groups| == 2 {
          LinksTell(fs, Pop(groups));
        }
        return null, 0, groups;
      }
      LinksTell(fs, Pop(groups));
      if cur.parent.Rbrother == null {
        cur, depth, groups := cur.parent, depth - 1, Pop(groups);
      } else {
        next_root, depth, groups := cur.parent.Rbrother, depth - 1, Move(Pop(groups));
        break;
      }
    }
    depth := depth - 1;
  }

  // ----- The whole traversal -----

  /** The cleanup loop: it follows `next` from the root. */
  method FreeNodes(root: DirScanInfo, ghost nodes: seq<DirScanInfo>) returns (freed: seq<DirScanInfo>)
    requires Chained(nodes) && |nodes| > 0 && nodes[0] == root
    ensures freed == nodes && NoDup(freed)
  {
    NoNodeTwice(nodes);
    freed := [];
    var cur_node: DirScanInfo? := root;
    while cur_node != null
      invariant |freed| <= |nodes| && freed == nodes[..|freed|]
      invariant cur_node == if |freed| < |nodes| then nodes[|freed|] else null
      decreases |nodes| - |freed|
    {
      assert cur_node.next == After(nodes, |freed|);
      freed := freed + [cur_node];
      cur_node := cur_node.next;
    }
  }

  /** What the scan list must become: the old one, then the root, then the
      children of every directory in the order of the recursive walk. */
  ghost function Expected(fs: Fs, before: seq<CString>, root: CString): seq<CString>
    requires |root| <= MS_FILE_PATH_LEN_MAX
  {
    AddAll(AddUnique(before, root), Found(fs, Preorder(fs, root)))
  }

  /** What a traversal is measured by: the list it starts from, the paths that it
      finds, given the answers to its polls, and the number of the poll after its
      last one, if it is not stopped. */
  datatype Goal = Goal(start: seq<CString>, all: seq<CString>, finish: nat)

  /** `visits` are still to be made; what was found so far is on the list, and
      what they find is what is missing. */
  ghost predicate OnTrack(
      job: Job, visits: seq<CString>, list: seq<CString>, done: seq<CString>, now: nat, goal: Goal)
  {
    match job
    case Job(fs, storage, polls) =>
      && list == AddAll(goal.start, done) && now + TotalPolls(fs, storage, visits) == goal.finish
      && Leads(fs, storage, visits, done, Noes(polls, now, goal.finish), goal.all)
  }

  /** What holds at the end, whether or not a poll has stopped the traversal. */
  ghost predicate Completed(
      job: Job, since: nat, later: nat, list: seq<CString>, done: seq<CString>, goal: Goal, stopped: bool)
  {
    && EndsBy(job.polls, since, later, goal.finish, stopped)
    && done == goal.all && list == AddAll(goal.start, done)
  }

  /** What a visit adds, and the polls it makes. */
  ghost predicate Visit(
      job: Job, path: CString, now: nat, start: seq<CString>, stopped: bool, later: nat,
      names: seq<CString>, list: seq<CString>)
  {
    match job
    case Job(fs, storage, polls) =>
      var finish := now + VisitPolls(fs, storage, path);
      && EndsBy(polls, now, later, finish, stopped)
      && names == ChildrenWithin(fs, storage, path, Noes(polls, now, finish)) && list == ListEach(start, path, names)
  }

  /** A visit of which all polls were answered no lists all children, and makes
      one step of progress. */
  lemma VisitStep(
      job: Job, gs: Levels, start: seq<CString>, list: seq<CString>, done: seq<CString>, now: nat, later: nat,
      names: seq<CString>, goal: Goal)
    requires Fits(gs) && OnTrack(job, Remaining(job.fs, gs), start, done, now, goal)
    requires Visit(job, PathOf(gs), now, start, false, later, names, list)
    ensures names == Children(job.fs, PathOf(gs))
    ensures var done' := done + JoinEach(PathOf(gs), names);
            if names == [] then
              && OnTrack(job, Below(job.fs, gs), list, done', later, goal)
              && |Below(job.fs, gs)| < |Remaining(job.fs, gs)|
            else
              && Fits(gs + [names])
              && OnTrack(job, Remaining(job.fs, gs + [names]), list, done', later, goal)
              && |Remaining(job.fs, gs + [names])| < |Remaining(job.fs, gs)|
  {
    var path := PathOf(gs);
    AllListed(job, path, now, start, later, names, list);
    Descend(job.fs, gs, names);
    var rest := if names == [] then Below(job.fs, gs) else Remaining(job.fs, gs + [names]);
    OneVisit(job, path, rest, start, done, now, later, goal);
  }

  lemma AllListed(
      job: Job, path: CString, now: nat, start: seq<CString>, later: nat, names: seq<CString>, list: seq<CString>)
    requires Visit(job, path, now, start, false, later, names, list)
    ensures names == Children(job.fs, path)
  {
    var finish := now + VisitPolls(job.fs, job.storage, path);
    PassPolls(job.polls, now, later, finish, false);
    ChildrenWithinPrefix(job.fs, job.storage, path, Noes(job.polls, now, finish));
  }

  lemma OneVisit(
      job: Job, path: CString, rest: seq<CString>, list: seq<CString>, done: seq<CString>, now: nat, later: nat,
      goal: Goal)
    requires OnTrack(job, [path] + rest, list, done, now, goal)
    requires EndsBy(job.polls, now, later, now + VisitPolls(job.fs, job.storage, path), false)
    ensures var kids := Children(job.fs, path);
            OnTrack(job, rest, ListEach(list, path, kids), done + JoinEach(path, kids), later, goal)
  {
    var finds := JoinEach(path, Children(job.fs, path));
    assert ([path] + rest)[1..] == rest;
    NoesGoOn(job.polls, now, later, goal.finish);
    AddAllConcat(goal.start, done, finds);
    ListEachIsAddAll(list, path, Children(job.fs, path));
  }

  /** A visit that was cut short has found what there was to find until then. */
  lemma CutShort(
      job: Job, gs: Levels, start: seq<CString>, list: seq<CString>, done: seq<CString>, now: nat, later: nat,
      names: seq<CString>, goal: Goal)
    requires Fits(gs) && OnTrack(job, Remaining(job.fs, gs), start, done, now, goal)
    requires Visit(job, PathOf(gs), now, start, true, later, names, list)
    ensures Completed(job, now, later, list, done + JoinEach(PathOf(gs), names), goal, true)
  {
    PathFits(gs);
    CutVisit(job, PathOf(gs), Remaining(job.fs, gs), start, list, done, now, later, names, goal);
  }

  lemma CutVisit(
      job: Job, path: CString, visits: seq<CString>, start: seq<CString>, list: seq<CString>, done: seq<CString>,
      now: nat, later: nat, names: seq<CString>, goal: Goal)
    requires visits != [] && visits[0] == path && OnTrack(job, visits, start, done, now, goal)
    requires Visit(job, path, now, start, true, later, names, list)
    ensures Completed(job, now, later, list, done + JoinEach(path, names), goal, true)
  {
    PassPolls(job.polls, now, later, now + VisitPolls(job.fs, job.storage, path), true);
    assert now + VisitPolls(job.fs, job.storage, path) <= goal.finish;
    PassPolls(job.polls, now, later, goal.finish, true);
    AddAllConcat(goal.start, done, JoinEach(path, names));
    ListEachIsAddAll(start, path, names);
  }

  /** With no visit left everything was found and the polls are done. */
  lemma AllMade(job: Job, since: nat, now: nat, list: seq<CString>, done: seq<CString>, goal: Goal)
    requires OnTrack(job, [], list, done, now, goal) && StopsAtFirst(job.polls, since, now, false)
    ensures Completed(job, since, now, list, done, goal, false)
  {
  }

  /** The visit of a directory that does not open, or one stopped before that. */
  lemma NotOpened(job: Job, path: CString, now: nat, list: seq<CString>, stopped: bool, later: nat)
    requires EndsBy(job.polls, now, later, now + OpenPolls(job.storage), stopped) && (stopped || path !in job.fs)
    ensures Visit(job, path, now, list, stopped, later, Names([]), list)
  {
    PassPolls(job.polls, now, later, now + OpenPolls(job.storage), stopped);
    PassPolls(job.polls, now, later, now + VisitPolls(job.fs, job.storage, path), stopped);
  }

  /** The visit of one that does. */
  lemma Opened(
      job: Job, path: CString, now: nat, start: seq<CString>, mid: nat, stopped: bool, later: nat,
      names: seq<CString>, list: seq<CString>)
    requires path in job.fs && EndsBy(job.polls, now, mid, now + OpenPolls(job.storage), false)
    requires ReadTo(job, path, mid, start, mid + AllEntries(job, path) + 1, stopped, later,
                    names, list)
    ensures Visit(job, path, now, start, stopped, later, names, list)
  {
    GoOn(job.polls, now, mid, later, stopped);
    NoesGoOn(job.polls, now, mid, now + VisitPolls(job.fs, job.storage, path));
  }

  /** The groups after a visit: the children found become a group of their own. */
  ghost function Deeper(groups: seq<seq<DirScanInfo>>, kids: seq<DirScanInfo>): seq<seq<DirScanInfo>> {
    if kids == [] then groups else groups + [kids]
  }

  /** Nodes, groups and cursor after a visit that has created `kids`. */
  ghost predicate Visited(
      groups: seq<seq<DirScanInfo>>, base: seq<DirScanInfo>, kids: seq<DirScanInfo>, root: DirScanInfo, c: Cursor)
    reads var gs := Deeper(groups, kids); (set l, k | 0 <= l < |gs| && 0 <= k < |gs[l]| :: gs[l][k])`parent
    reads var gs := Deeper(groups, kids); (set l, k | 0 <= l < |gs| && 0 <= k < |gs[l]| :: gs[l][k])`Rbrother
    reads (base + kids)`next
  {
    match c
    case Cursor(find_folder, tmp_root, prv_node) =>
      && Held(base + kids, root, prv_node)
      && Linked(Deeper(groups, kids)) && Deeper(groups, kids)[0] == [root]
      && tmp_root == Top(Deeper(groups, kids)) && find_folder == |kids|
  }

  lemma AfterVisit(
      groups: seq<seq<DirScanInfo>>, base: seq<DirScanInfo>, kids: seq<DirScanInfo>, root: DirScanInfo, c: Cursor)
    requires Linked(groups) && Gathered(Place(Spine(groups), base), kids, c)
    requires base[0] == root && groups[0] == [root]
    ensures Visited(groups, base, kids, root, c)
  {
    if kids != [] {
      LinkedPush(groups, kids);
    }
  }

  lemma NotVisited(groups: seq<seq<DirScanInfo>>, nodes: seq<DirScanInfo>, root: DirScanInfo, prv: DirScanInfo)
    requires Linked(groups) && Held(nodes, root, prv) && groups[0] == [root]
    ensures Visited(groups, nodes, [], root, Cursor(0, Top(groups), prv))
  {
    assert nodes + [] == nodes;
  }

  /** The variables of the outer loop: the root, the current directory, the node
      allocated last, and depth and path of the current directory. */
  datatype Position = Position(
    root: DirScanInfo, tmp_root: DirScanInfo, prv_node: DirScanInfo, depth: int, path: CString)

  ghost function PositionIn(groups: seq<seq<DirScanInfo>>, last: DirScanInfo): Position
    requires |groups| > 0 && forall l :: 0 <= l < |groups| ==> |groups[l]| > 0
  {
    Position(groups[0][0], Top(groups), last, |groups| - 1, PathOf(NamesOf(groups)))
  }

  /** Between two rounds: all nodes are chained, the groups are linked, and the
      variables are those of the current directory. */
  ghost predicate Standing(groups: seq<seq<DirScanInfo>>, nodes: seq<DirScanInfo>, pos: Position)
    reads (set l, k | 0 <= l < |groups| && 0 <= k < |groups[l]| :: groups[l][k])`parent
    reads (set l, k | 0 <= l < |groups| && 0 <= k < |groups[l]| :: groups[l][k])`Rbrother
    reads nodes`next
  {
    match pos
    case Position(root, _, prv_node, _, _) =>
      Held(nodes, root, prv_node) && Linked(groups) && Fits(NamesOf(groups)) && pos == PositionIn(groups, prv_node)
  }

  lemma SpineReady(groups: seq<seq<DirScanInfo>>, nodes: seq<DirScanInfo>, pos: Position)
    requires Standing(groups, nodes, pos)
    ensures groups[0] == [pos.root] && Linked(groups)
    ensures var at := Place(Spine(groups), nodes);
            && Gathered(at, [], Cursor(0, pos.tmp_root, pos.prv_node))
            && pos.depth + 1 >= 0 && StandsAt(at, pos.path, pos.depth + 1)
  {
    SpineIsChain(groups);
    assert nodes + [] == nodes;
  }

  /** CollectChildren does not touch the links of the groups. */
  method ReadHere(
      job: Job, scan: ScanList, now: nat, path: CString, c0: Cursor, depth: nat, ghost root: DirScanInfo,
      ghost groups: seq<seq<DirScanInfo>>, ghost nodes: seq<DirScanInfo>)
    returns (stopped: bool, later: nat, c: Cursor, ghost kids: seq<DirScanInfo>)
    requires scan.Valid() && Linked(groups) && path in job.fs && groups[0] == [root] && Held(nodes, root, c0.prv_node)
    requires var at := Place(Spine(groups), nodes); Gathered(at, [], c0) && StandsAt(at, path, depth)
    modifies scan, scan.Repr, c0.prv_node`next
    ensures scan.Valid() && fresh(scan.Repr - old(scan.Repr))
    ensures Visited(groups, nodes, kids, root, c) && (c.prv_node == c0.prv_node || fresh(c.prv_node))
    ensures ReadTo(job, path, now, old(scan.Names()),
                   now + AllEntries(job, path) + 1, stopped, later,
                   Names(kids), scan.Names())
  {
    stopped, later, c, kids := CollectChildren(job, scan, now, path, c0, depth, Place(Spine(groups), nodes));
    AfterVisit(groups, nodes, kids, root, c);
  }

  /** The current directory, opened. */
  method VisitOpened(
      job: Job, scan: ScanList, now: nat, pos: Position,
      ghost groups: seq<seq<DirScanInfo>>, ghost nodes: seq<DirScanInfo>)
    returns (stopped: bool, later: nat, c: Cursor, ghost kids: seq<DirScanInfo>)
    requires scan.Valid() && Standing(groups, nodes, pos) && pos.path in job.fs
    modifies scan, scan.Repr, pos.prv_node`next
    ensures scan.Valid() && fresh(scan.Repr - old(scan.Repr))
    ensures Visited(groups, nodes, kids, pos.root, c)
    ensures c.prv_node == pos.prv_node || fresh(c.prv_node)
    ensures ReadTo(job, pos.path, now, old(scan.Names()),
                   now + AllEntries(job, pos.path) + 1, stopped, later,
                   Names(kids), scan.Names())
  {
    SpineReady(groups, nodes, pos);
    stopped, later, c, kids :=
      ReadHere(job, scan, now, pos.path, Cursor(0, pos.tmp_root, pos.prv_node), pos.depth + 1, pos.root, groups, nodes);
  }

  /** Poll, and read the current directory, if it opens; its children become
      the next group to visit. */
  method VisitDirectory(
      job: Job, scan: ScanList, now: nat, pos: Position,
      ghost groups: seq<seq<DirScanInfo>>, ghost nodes: seq<DirScanInfo>)
    returns (stopped: bool, later: nat, c: Cursor, ghost kids: seq<DirScanInfo>)
    requires scan.Valid() && Standing(groups, nodes, pos)
    modifies scan, scan.Repr, pos.prv_node`next
    ensures scan.Valid() && fresh(scan.Repr - old(scan.Repr))
    ensures Visited(groups, nodes, kids, pos.root, c)
    ensures c.prv_node == pos.prv_node || fresh(c.prv_node)
    ensures Visit(job, pos.path, now, old(scan.Names()), stopped, later, Names(kids), scan.Names())
  {
    c, kids := Cursor(0, pos.tmp_root, pos.prv_node), [];
    NotVisited(groups, nodes, pos.root, pos.prv_node);
    ghost var list := scan.Names();
    var stop := SeesStop(job.polls, now, job.storage);
    stopped, later := stop.0, stop.1;
    if stopped || pos.path !in job.fs {
      NotOpened(job, pos.path, now, list, stopped, later);
    } else {
      ghost var mid := later;
      stopped, later, c, kids := VisitOpened(job, scan, later, pos, groups, nodes);
      Opened(job, pos.path, now, list, mid, stopped, later, Names(kids), scan.Names());
    }
  }

  /** The visits to come after that of the current directory. */
  ghost function VisitsNext(fs: Fs, groups: seq<seq<DirScanInfo>>, kids: seq<DirScanInfo>): seq<CString>
    requires Fits(NamesOf(Deeper(groups, kids)))
  {
    if kids == [] then Below(fs, NamesOf(groups)) else Remaining(fs, NamesOf(groups + [kids]))
  }

  ghost function ToCome(fs: Fs, groups: seq<seq<DirScanInfo>>): seq<CString>
    requires Fits(NamesOf(groups))
  {
    Remaining(fs, NamesOf(groups))
  }

  /** What a visit, complete or not, means for list and polls; `since` is the first poll. */
  lemma VisitMade(
      job: Job, since: nat, now: nat, later: nat, stopped: bool, groups: seq<seq<DirScanInfo>>, kids: seq<DirScanInfo>,
      start: seq<CString>, list: seq<CString>, done0: seq<CString>, done: seq<CString>, goal: Goal)
    requires Fits(NamesOf(groups)) && OnTrack(job, ToCome(job.fs, groups), start, done0, now, goal)
    requires StopsAtFirst(job.polls, since, now, false)
    requires Visit(job, PathOf(NamesOf(groups)), now, start, stopped, later, Names(kids), list)
    requires done == done0 + JoinEach(PathOf(NamesOf(groups)), Names(kids))
    ensures |done| == |done0| + |kids|
    ensures if stopped then Completed(job, since, later, list, done, goal, true)
            else
              && Fits(NamesOf(Deeper(groups, kids))) && StopsAtFirst(job.polls, since, later, false)
              && OnTrack(job, VisitsNext(job.fs, groups, kids), list, done, later, goal)
              && |VisitsNext(job.fs, groups, kids)| < |ToCome(job.fs, groups)|
  {
    GoOn(job.polls, since, now, later, stopped);
    if stopped {
      CutShort(job, NamesOf(groups), start, list, done0, now, later, Names(kids), goal);
    } else {
      VisitStep(job, NamesOf(groups), start, list, done0, now, later, Names(kids), goal);
      NamesOfPush(groups, kids);
    }
  }

  /** From a visited directory to the next one, or to the end. */
  method MoveOn(
      c: Cursor, root: DirScanInfo, depth0: int, ghost fs: Fs, ghost groups0: seq<seq<DirScanInfo>>,
      ghost kids: seq<DirScanInfo>, ghost nodes0: seq<DirScanInfo>)
    returns (next_root: DirScanInfo?, path: CString, depth: int, ghost groups: seq<seq<DirScanInfo>>)
    requires Visited(groups0, nodes0, kids, root, c) && depth0 == |groups0|
    requires Fits(NamesOf(Deeper(groups0, kids)))
    ensures Held(nodes0 + kids, root, c.prv_node)
    ensures next_root == null ==> VisitsNext(fs, groups0, kids) == []
    ensures next_root != null ==>
              && Standing(groups, nodes0 + kids, Position(root, next_root, c.prv_node, depth, path))
              && ToCome(fs, groups) == VisitsNext(fs, groups0, kids)
  {
    var err;
    err, next_root, path, depth, groups :=
      GetNextPath(c.find_folder, c.tmp_root, root, depth0, fs, Deeper(groups0, kids));
  }

  /** The first half of a round: the current directory is visited. */
  method VisitHere(
      job: Job, scan: ScanList, now: nat, pos: Position, ghost groups: seq<seq<DirScanInfo>>,
      ghost nodes: seq<DirScanInfo>, ghost done0: seq<CString>, ghost since: nat, ghost goal: Goal)
    returns (stopped: bool, later: nat, c: Cursor, ghost kids: seq<DirScanInfo>, ghost done: seq<CString>)
    requires scan.Valid() && Standing(groups, nodes, pos)
    requires StopsAtFirst(job.polls, since, now, false)
    requires OnTrack(job, ToCome(job.fs, groups), scan.Names(), done0, now, goal) && |nodes| == 1 + |done0|
    modifies scan, scan.Repr, pos.prv_node`next
    ensures scan.Valid() && fresh(scan.Repr - old(scan.Repr))
    ensures Visited(groups, nodes, kids, pos.root, c) && |nodes + kids| == 1 + |done|
    ensures c.prv_node == pos.prv_node || fresh(c.prv_node)
    ensures if stopped then Completed(job, since, later, scan.Names(), done, goal, true)
            else
              && Fits(NamesOf(Deeper(groups, kids))) && StopsAtFirst(job.polls, since, later, false)
              && OnTrack(job, VisitsNext(job.fs, groups, kids), scan.Names(), done, later, goal)
              && |VisitsNext(job.fs, groups, kids)| < |ToCome(job.fs, groups)|
  {
    ghost var list := scan.Names();
    stopped, later, c, kids := VisitDirectory(job, scan, now, pos, groups, nodes);
    done := done0 + JoinEach(pos.path, Names(kids));
    VisitMade(job, since, now, later, stopped, groups, kids, list, scan.Names(), done0, done, goal);
  }

  /** The traversal goes on: where it stands, what it has found, and the polls so far. */
  ghost predicate Underway(
      job: Job, since: nat, now: nat, list: seq<CString>, groups: seq<seq<DirScanInfo>>, nodes: seq<DirScanInfo>,
      done: seq<CString>, pos: Position, goal: Goal)
    reads (set l, k | 0 <= l < |groups| && 0 <= k < |groups[l]| :: groups[l][k])`parent
    reads (set l, k | 0 <= l < |groups| && 0 <= k < |groups[l]| :: groups[l][k])`Rbrother
    reads nodes`next
  {
    && Standing(groups, nodes, pos) && |nodes| == 1 + |done|
    && OnTrack(job, ToCome(job.fs, groups), list, done, now, goal)
    && StopsAtFirst(job.polls, since, now, false)
  }

  /** One round of the outer loop: visit the current directory, then find the
      next one, if there is `more`. */
  method Round(
      job: Job, scan: ScanList, now: nat, pos0: Position, ghost groups0: seq<seq<DirScanInfo>>,
      ghost nodes0: seq<DirScanInfo>, ghost done0: seq<CString>, ghost since: nat, ghost goal: Goal)
    returns (stopped: bool, later: nat, more: bool, pos: Position,
             ghost groups: seq<seq<DirScanInfo>>, ghost nodes: seq<DirScanInfo>, ghost done: seq<CString>)
    requires scan.Valid() && Underway(job, since, now, scan.Names(), groups0, nodes0, done0, pos0, goal)
    modifies scan, scan.Repr, pos0.prv_node`next
    ensures scan.Valid() && fresh(scan.Repr - old(scan.Repr))
    ensures Held(nodes, pos0.root, pos.prv_node) && |nodes| == 1 + |done| && pos.root == pos0.root
    ensures pos.prv_node == pos0.prv_node || fresh(pos.prv_node)
    ensures if stopped || !more then Completed(job, since, later, scan.Names(), done, goal, stopped)
            else
              && Underway(job, since, later, scan.Names(), groups, nodes, done, pos, goal)
              && |ToCome(job.fs, groups)| < |ToCome(job.fs, groups0)|
  {
    groups, more := groups0, false;
    var c;
    ghost var kids;
    stopped, later, c, kids, done := VisitHere(job, scan, now, pos0, groups, nodes0, done0, since, goal);
    nodes := nodes0 + kids;
    pos := pos0.(prv_node := c.prv_node);
    if !stopped {
      var next_root, path, depth;
      next_root, path, depth, groups := MoveOn(c, pos0.root, pos0.depth + 1, job.fs, groups, kids, nodes0);
      if next_root == null {
        AllMade(job, since, later, scan.Names(), done, goal);
      } else {
        more, pos := true, Position(pos0.root, next_root, c.prv_node, depth, path);
      }
    }
  }

  /** The outer loop of _ms_dir_check. */
  method WalkTree(
      job: Job, scan: ScanList, now: nat, root: DirScanInfo, path: CString, ghost goal: Goal)
    returns (stopped: bool, later: nat, ghost nodes: seq<DirScanInfo>, ghost done: seq<CString>)
    requires scan.Valid() && root.parent == null && root.Rbrother == null && root.next == null && path == root.name
    requires |path| <= MS_FILE_PATH_LEN_MAX && OnTrack(job, Preorder(job.fs, path), scan.Names(), [], now, goal)
    modifies scan, scan.Repr, root`next
    ensures scan.Valid() && fresh(scan.Repr - old(scan.Repr))
    ensures Completed(job, now, later, scan.Names(), done, goal, stopped)
    ensures Chained(nodes) && |nodes| == 1 + |done| && nodes[0] == root
  {
    var pos := Position(root, root, root, 0, path);
    ghost var groups := [[root]];
    stopped, later, nodes, done := false, now, [root], [];
    AtRoot(job.fs, root);
    var more := true;
    while more
      invariant scan.Valid() && fresh(scan.Repr - old(scan.Repr))
      invariant more ==> Underway(job, now, later, scan.Names(), groups, nodes, done, pos, goal)
      invariant pos.root == root && (pos.prv_node == root || fresh(pos.prv_node))
      invariant !more ==> Completed(job, now, later, scan.Names(), done, goal, stopped)
      invariant Held(nodes, root, pos.prv_node) && |nodes| == 1 + |done|
      decreases more, if more then |ToCome(job.fs, groups)| else 0
    {
      stopped, later, more, pos, groups, nodes, done :=
        Round(job, scan, later, pos, groups, nodes, done, now, goal);
      more := more && !stopped;
    }
  }

  lemma AtRoot(fs: Fs, root: DirScanInfo)
    requires root.parent == null && root.Rbrother == null && root.next == null && |root.name| <= MS_FILE_PATH_LEN_MAX
    ensures Standing([[root]], [root], Position(root, root, root, 0, root.name))
    ensures ToCome(fs, [[root]]) == Preorder(fs, root.name)
  {
    OneRoot(root);
  }

  lemma OneRoot(root: DirScanInfo)
    requires root.parent == null && root.Rbrother == null && root.next == null
    ensures Linked([[root]]) && Chained([root]) && NamesOf([[root]]) == [[root.name]]
    ensures PathOf([[root.name]]) == root.name
  {
    assert Brothers([root], null);
    assert Names([root]) == [root.name];
  }

  /** The number of the poll after the last one of an uninterrupted traversal. */
  ghost function WalkFinish(job: Job, root: CString, now: nat): nat
    requires |root| <= MS_FILE_PATH_LEN_MAX
  {
    now + TotalPolls(job.fs, job.storage, Preorder(job.fs, root))
  }

  /** What the recursive walk finds before the first poll that is answered yes. */
  ghost function WalkFinds(job: Job, root: CString, now: nat): seq<CString>
    requires |root| <= MS_FILE_PATH_LEN_MAX
  {
    FoundWithin(job.fs, job.storage, Preorder(job.fs, root), Noes(job.polls, now, WalkFinish(job, root, now)))
  }

  /** If no poll is answered yes that is everything; in any case a first part of it. */
  lemma WalkFindsPrefix(job: Job, root: CString, now: nat, later: nat, stopped: bool)
    requires |root| <= MS_FILE_PATH_LEN_MAX && EndsBy(job.polls, now, later, WalkFinish(job, root, now), stopped)
    ensures WalkFinds(job, root, now) <= Found(job.fs, Preorder(job.fs, root))
    ensures !stopped ==> WalkFinds(job, root, now) == Found(job.fs, Preorder(job.fs, root))
  {
    PassPolls(job.polls, now, later, WalkFinish(job, root, now), stopped);
    var visits, m := Preorder(job.fs, root), Noes(job.polls, now, WalkFinish(job, root, now));
    FoundWithinPrefix(job.fs, job.storage, visits, m);
    if !stopped {
      FoundWithinAll(job.fs, job.storage, visits, m);
    }
  }

  /** _ms_dir_check. It is stopped exactly if one of its polls is answered yes.
      In any case the list has taken in just what the recursive walk finds with
      the polls made before, one node was allocated for each of these paths and
      one for the root, and the cleanup frees each of them once. When it is not
      stopped this is everything. */
  method DirCheck(job: Job, scan: ScanList, scan_path: CString, now: nat)
    returns (stopped: bool, later: nat, freed: seq<DirScanInfo>)
    requires scan.Valid()
    modifies scan, scan.Repr
    ensures scan.Valid() && fresh(scan.Repr - old(scan.Repr))
    ensures |scan_path| > MS_FILE_PATH_LEN_MAX ==>
              scan.Names() == old(scan.Names()) && !stopped && later == now && freed == []
    ensures |scan_path| <= MS_FILE_PATH_LEN_MAX ==>
              && EndsBy(job.polls, now, later, WalkFinish(job, scan_path, now), stopped)
              && scan.Names() == AddAll(AddUnique(old(scan.Names()), scan_path), WalkFinds(job, scan_path, now))
              && NoDup(freed) && |freed| == 1 + |WalkFinds(job, scan_path, now)|
              && (!stopped ==> scan.Names() == Expected(job.fs, old(scan.Names()), scan_path))
  {
    stopped, later, freed := false, now, [];
    var root := new DirScanInfo(scan_path);
    var err, path := CheckRoot(root);
    if err != MS_ERR_NONE {
      return;
    }
    stopped, later, freed := ScanFrom(job, scan, now, root, path);
    WalkFindsPrefix(job, scan_path, now, later, stopped);
  }

  /** The path of the root node, with depth 0. */
  method CheckRoot(root: DirScanInfo) returns (err: int, path: CString)
    requires root.parent == null
    ensures err == if |root.name| <= MS_FILE_PATH_LEN_MAX then MS_ERR_NONE else MS_ERR_INVALID_DIR_PATH
    ensures err == MS_ERR_NONE ==> path == root.name
  {
    assert IsChain([root]) && Names([root]) == [root.name];
    var buffer := new char[MS_FILE_PATH_LEN_MAX + 1];
    RoomForIff(Names([root]));
    path := "";
    err := GetFullPathFromNode(root, buffer, 0, [root]);
    if err == MS_ERR_NONE {
      path := StrDup(buffer, root.name);
    }
  }

  /** The rest of it, from the root node on. */
  method ScanFrom(job: Job, scan: ScanList, now: nat, root: DirScanInfo, path: CString)
    returns (stopped: bool, later: nat, freed: seq<DirScanInfo>)
    requires scan.Valid() && root.parent == null && root.Rbrother == null && root.next == null
    requires path == root.name && |path| <= MS_FILE_PATH_LEN_MAX
    modifies scan, scan.Repr, root`next
    ensures scan.Valid() && fresh(scan.Repr - old(scan.Repr))
    ensures EndsBy(job.polls, now, later, WalkFinish(job, path, now), stopped)
    ensures scan.Names() == AddAll(AddUnique(old(scan.Names()), path), WalkFinds(job, path, now))
    ensures NoDup(freed) && |freed| == 1 + |WalkFinds(job, path, now)|
  {
    ghost var goal := Goal(AddUnique(scan.Names(), path), WalkFinds(job, path, now), WalkFinish(job, path, now));
    assert IsChain([root]) && Names([root]) == [path];
    var err := ScanAddNode(scan, root, 0, [root], path);
    LeadsIff(job.fs, job.storage, Preorder(job.fs, path), [], Noes(job.polls, now, goal.finish), goal.all);
    assert [] + goal.all == goal.all;
    ghost var nodes, done;
    stopped, later, nodes, done := WalkTree(job, scan, now, root, path, goal);
    freed := FreeNodes(root, nodes);
  }

  /** An interrupted traversal leaves a prefix of the complete list. */
  lemma StoppedIsPrefix(start: seq<CString>, all: seq<CString>, done: seq<CString>)
    requires done <= all
    ensures AddAll(start, done) <= AddAll(start, all)
  {
    assert all == done + all[|done|..];
    AddAllConcat(start, done, all[|done|..]);
    AddAllMembers(AddAll(start, done), all[|done|..]);
  }
}
