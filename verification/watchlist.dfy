/** The inotify watch list: a singly linked list from watch descriptors to
    directory paths, edited in place (media-server-inotify.c). */
module WatchList {
  import opened Base

  datatype Watch = Watch(name: CString, wd: int)

  // ----- What each operation means for the sequence of watches -----

  predicate Named(ws: seq<Watch>, name: CString) {
    exists i :: 0 <= i < |ws| && ws[i].name == name
  }

  /** Position of the first watch with that name, or the length. */
  function FirstNamed(ws: seq<Watch>, name: CString): (k: nat)
    ensures k <= |ws|
    ensures forall i :: 0 <= i < k ==> ws[i].name != name
    ensures k < |ws| ==> ws[k].name == name
  {
    if ws == [] || ws[0].name == name then 0 else 1 + FirstNamed(ws[1..], name)
  }

  /** `wd` is what the kernel answers to inotify_add_watch. */
  function Added(ws: seq<Watch>, path: CString, wd: int): seq<Watch> {
    if Named(ws, path) || wd <= 0 then ws else ws + [Watch(path, wd)]
  }

  predicate OccursAt(hay: string, needle: string, i: int) {
    0 <= i <= |hay| - |needle| && hay[i..i + |needle|] == needle
  }

  /** strstr(hay, needle) != NULL */
  predicate Contains(hay: string, needle: string) {
    exists i :: 0 <= i <= |hay| && OccursAt(hay, needle, i)
  }

  /** Among the first `n` watches, those whose name does not contain `path`. */
  function Spared(ws: seq<Watch>, path: CString, n: nat): seq<Watch>
    requires n <= |ws|
  {
    if n == 0 then []
    else Spared(ws, path, n - 1) + if Contains(ws[n - 1].name, path) then [] else [ws[n - 1]]
  }

  function WithoutContaining(ws: seq<Watch>, path: CString): seq<Watch> {
    Spared(ws, path, |ws|)
  }

  function WithoutFirst(ws: seq<Watch>, path: CString): seq<Watch> {
    var k := FirstNamed(ws, path);
    if k < |ws| then ws[..k] + ws[k + 1..] else ws
  }

  /** A match in first position is not renamed: the new path is added instead. */
  function Modified(ws: seq<Watch>, from: CString, to: CString, wd: int): (r: seq<Watch>)
    ensures |r| >= |ws|
  {
    var k := FirstNamed(ws, from);
    if 0 < k < |ws| then ws[k := Watch(to, ws[k].wd)] else Added(ws, to, wd)
  }

  /** The watch that an event with this descriptor is attributed to: the first
      with the descriptor, or else simply the last one. */
  function Resolve(ws: seq<Watch>, wd: int): (k: nat)
    requires ws != []
    ensures k < |ws|
  {
    if |ws| == 1 || ws[0].wd == wd then 0 else 1 + Resolve(ws[1..], wd)
  }

  // ----- Properties -----

  ghost predicate DistinctNames(ws: seq<Watch>) {
    forall i, j :: 0 <= i < j < |ws| ==> ws[i].name != ws[j].name
  }

  ghost predicate DistinctWds(ws: seq<Watch>) {
    forall i, j :: 0 <= i < j < |ws| ==> ws[i].wd != ws[j].wd
  }

  lemma {:induction false} SparedMembers(ws: seq<Watch>, path: CString, n: nat, w: Watch)
    requires n <= |ws|
    ensures w in Spared(ws, path, n) <==> w in ws[..n] && !Contains(w.name, path)
  {
    if n > 0 {
      SparedMembers(ws, path, n - 1, w);
      assert ws[..n] == ws[..n - 1] + [ws[n - 1]];
    }
  }

  lemma {:induction false} SparedDistinct(ws: seq<Watch>, path: CString, n: nat)
    requires n <= |ws| && DistinctNames(ws)
    ensures DistinctNames(Spared(ws, path, n))
  {
    if n > 0 {
      SparedDistinct(ws, path, n - 1);
      var init := Spared(ws, path, n - 1);
      forall i | 0 <= i < |init| ensures init[i].name != ws[n - 1].name {
        SparedMembers(ws, path, n - 1, init[i]);
        var j :| 0 <= j < n - 1 && ws[..n - 1][j] == init[i];
      }
    }
  }

  /** What strstr tells: the one text is a stretch of the other. */
  ghost predicate Stretch(hay: string, needle: string) {
    exists a, b :: hay == a + needle + b
  }

  lemma ContainsIff(hay: string, needle: string)
    ensures Contains(hay, needle) <==> Stretch(hay, needle)
  {
    if Contains(hay, needle) {
      var i :| 0 <= i <= |hay| && OccursAt(hay, needle, i);
      assert hay == hay[..i] + needle + hay[i + |needle|..];
    }
    if Stretch(hay, needle) {
      var a, b :| hay == a + needle + b;
      ContainsPart(a, needle, b);
    }
  }

  /** Recursive removal keeps exactly the watches whose names do not have the
      argument in them as a stretch, and names stay distinct. */
  lemma WithoutContainingMembers(ws: seq<Watch>, path: CString)
    ensures forall w :: w in WithoutContaining(ws, path) <==> w in ws && !Stretch(w.name, path)
    ensures DistinctNames(ws) ==> DistinctNames(WithoutContaining(ws, path))
  {
    forall w ensures w in WithoutContaining(ws, path) <==> w in ws && !Stretch(w.name, path) {
      SparedMembers(ws, path, |ws|, w);
      ContainsIff(w.name, path);
      assert ws[..|ws|] == ws;
    }
    if DistinctNames(ws) {
      SparedDistinct(ws, path, |ws|);
    }
  }

  /** And it goes through the list part by part: the order stays. */
  lemma WithoutContainingConcat(a: seq<Watch>, b: seq<Watch>, path: CString)
    ensures WithoutContaining(a + b, path) == WithoutContaining(a, path) + WithoutContaining(b, path)
  {
    SparedFront(a, b, path, |a|);
    SparedBack(a, b, path, |b|);
  }

  lemma {:induction false} SparedFront(a: seq<Watch>, b: seq<Watch>, path: CString, n: nat)
    requires n <= |a|
    ensures Spared(a + b, path, n) == Spared(a, path, n)
  {
    if n > 0 {
      SparedFront(a, b, path, n - 1);
    }
  }

  lemma {:induction false} SparedBack(a: seq<Watch>, b: seq<Watch>, path: CString, n: nat)
    requires n <= |b|
    ensures Spared(a + b, path, |a| + n) == Spared(a + b, path, |a|) + Spared(b, path, n)
  {
    if n > 0 {
      SparedBack(a, b, path, n - 1);
    }
  }

  /** It removes just the subtree of the argument exactly when no watch outside
      that subtree has a name that contains it. */
  lemma RemovesSubtreeIff(ws: seq<Watch>, path: CString)
    ensures (forall w :: w in ws ==> (w in WithoutContaining(ws, path) <==> !Under(path, w.name)))
       <==> (forall w :: w in ws && Stretch(w.name, path) ==> Under(path, w.name))
  {
    WithoutContainingMembers(ws, path);
    forall w | w in ws && Under(path, w.name) ensures Stretch(w.name, path) {
      UnderIsPrefix(path, w.name);
      assert w.name == "" + path + w.name[|path|..];
    }
  }

  /** Removing the watches of the memory card also drops that of a directory of
      the internal storage that repeats the card's path, and that of a sibling
      whose name goes on where the card's ends. */
  lemma RemovesTooMuch(inside: CString, sibling: CString)
    requires inside == MS_ROOT_PATH_INTERNAL + MS_ROOT_PATH_EXTERNAL && sibling == MS_ROOT_PATH_EXTERNAL + "2"
    ensures WithoutContaining([Watch(inside, 1), Watch(sibling, 2)], MS_ROOT_PATH_EXTERNAL) == []
    ensures !Under(MS_ROOT_PATH_EXTERNAL, inside) && !Under(MS_ROOT_PATH_EXTERNAL, sibling)
  {
    RootsDiffer();
    DroppedThoughOutside(MS_ROOT_PATH_EXTERNAL, MS_ROOT_PATH_INTERNAL, '2');
    var ws := [Watch(inside, 1), Watch(sibling, 2)];
    assert Spared(ws, MS_ROOT_PATH_EXTERNAL, 1) == [];
  }

  lemma RootsDiffer()
    ensures |MS_ROOT_PATH_INTERNAL| > 5 && |MS_ROOT_PATH_EXTERNAL| > 5
    ensures MS_ROOT_PATH_INTERNAL[5] != MS_ROOT_PATH_EXTERNAL[5]
  {
  }

  lemma DroppedThoughOutside(path: CString, other: CString, c: char)
    requires |path| > 5 && |other| > 5 && path[5] != other[5] && c != '/' && c != '\0'
    ensures Contains(other + path, path) && !Under(path, other + path)
    ensures Contains(path + [c], path) && !Under(path, path + [c])
  {
    ContainsPart(other, path, "");
    ContainsPart("", path, [c]);
    assert other + path + "" == other + path && "" + path + [c] == path + [c];
    assert (path + "/")[5] == path[5] && ((other + path) + "/")[5] == other[5];
    assert (path + "/")[|path|] == '/' && ((path + [c]) + "/")[|path|] == c;
  }

  lemma ContainsPart(before: string, needle: string, after: string)
    ensures Contains(before + needle + after, needle)
  {
    assert OccursAt(before + needle + after, needle, |before|);
  }

  /** Adding never makes a name appear twice. */
  lemma AddedKeepsDistinct(ws: seq<Watch>, path: CString, wd: int)
    requires DistinctNames(ws)
    ensures DistinctNames(Added(ws, path, wd))
    ensures wd > 0 ==> Named(Added(ws, path, wd), path)
  {
    if !Named(ws, path) && wd > 0 {
      assert (ws + [Watch(path, wd)])[|ws|].name == path;
    }
  }

  /** All names but the old one stay, and the new one is there if the kernel can watch it. */
  lemma ModifiedNames(ws: seq<Watch>, from: CString, to: CString, wd: int, name: CString)
    requires (name == to && wd > 0) || (name != from && Named(ws, name))
    ensures Named(Modified(ws, from, to, wd), name)
  {
    var k, after := FirstNamed(ws, from), Modified(ws, from, to, wd);
    if name != from && Named(ws, name) {
      var i :| 0 <= i < |ws| && ws[i].name == name;
      assert i != k && after[i] == ws[i];
    } else if 0 < k < |ws| {
      assert after[k].name == to;
    } else if !Named(ws, to) {
      assert after[|ws|].name == to;
    }
  }

  /** A rename keeps names distinct exactly when the new name is not already
      that of another watch. */
  lemma ModifiedKeepsDistinctIff(ws: seq<Watch>, from: CString, to: CString, wd: int)
    requires ws != [] && DistinctNames(ws) && from != to
    ensures DistinctNames(Modified(ws, from, to, wd)) <==> !(0 < FirstNamed(ws, from) < |ws| && Named(ws, to))
  {
    var k := FirstNamed(ws, from);
    if 0 < k < |ws| {
      var after := ws[k := Watch(to, ws[k].wd)];
      if Named(ws, to) {
        var i :| 0 <= i < |ws| && ws[i].name == to;
        assert after[i].name == to && after[k].name == to && i != k;
      }
    } else {
      AddedKeepsDistinct(ws, to, wd);
    }
  }

  /** A name that is taken: the rename leaves two watches of that name. */
  lemma RenameOntoTakenName()
    ensures var ws := [Watch("/a", 1), Watch("/b", 2), Watch("/c", 3)];
            && DistinctNames(ws)
            && Modified(ws, "/b", "/c", 4) == [Watch("/a", 1), Watch("/c", 2), Watch("/c", 3)]
  {
    var ws := [Watch("/a", 1), Watch("/b", 2), Watch("/c", 3)];
    assert ws[0].name != "/b" && ws[1..][0].name == "/b";
    assert FirstNamed(ws, "/b") == 1;
  }

  /** A descriptor in the list resolves to its own watch; an unknown one to the last. */
  lemma {:induction false} ResolveKnown(ws: seq<Watch>, wd: int, k: nat)
    requires DistinctWds(ws) && k < |ws|
    ensures ws[k].wd == wd ==> Resolve(ws, wd) == k
    ensures (forall i :: 0 <= i < |ws| ==> ws[i].wd != wd) ==> Resolve(ws, wd) == |ws| - 1
    decreases |ws|
  {
    if |ws| > 1 && ws[0].wd != wd {
      assert forall i :: 0 <= i < |ws[1..]| ==> ws[1..][i] == ws[i + 1];
      ResolveKnown(ws[1..], wd, if k > 0 then k - 1 else 0);
    }
  }

  // ----- The linked list -----

  class InotiDir {
    var name: CString
    const wd: int
    var next: InotiDir?

    constructor (name: CString, wd: int)
      ensures this.name == name && this.wd == wd && next == null
    {
      this.name, this.wd, next := name, wd, null;
    }
  }

  ghost function After(cells: seq<InotiDir>, i: nat): InotiDir?
    requires i < |cells|
  {
    if i + 1 < |cells| then cells[i + 1] else null
  }

  ghost predicate Linked(cells: seq<InotiDir>)
    reads cells`next
  {
    forall i {:trigger cells[i].next} :: 0 <= i < |cells| ==> cells[i].next == After(cells, i)
  }

  ghost predicate Labelled(cells: seq<InotiDir>, ws: seq<Watch>)
    reads cells`name
  {
    && |cells| == |ws|
    && forall i {:trigger cells[i].name} {:trigger ws[i]} ::
         0 <= i < |ws| ==> ws[i] == Watch(cells[i].name, cells[i].wd)
  }

  lemma {:induction false} CellsDiffer(cells: seq<InotiDir>, i: nat, j: nat)
    requires Linked(cells) && i < j < |cells|
    ensures cells[i] != cells[j]
    decreases |cells| - j
  {
    assert cells[i].next == After(cells, i) && cells[j].next == After(cells, j);
    if j + 1 < |cells| {
      CellsDiffer(cells, i + 1, j + 1);
    }
  }

  lemma NoCellTwice(cells: seq<InotiDir>)
    requires Linked(cells)
    ensures NoDup(cells)
  {
    forall i, j | 0 <= i < j < |cells| ensures cells[i] != cells[j] {
      CellsDiffer(cells, i, j);
    }
  }

  /** The cells of the watches that a recursive removal spares. */
  ghost function SparedCells(all: seq<InotiDir>, ws: seq<Watch>, path: CString, n: nat): seq<InotiDir>
    requires n <= |ws| == |all|
  {
    if n == 0 then []
    else SparedCells(all, ws, path, n - 1) + if Contains(ws[n - 1].name, path) then [] else [all[n - 1]]
  }

  lemma {:induction false} SparedCellsEarlier(
      all: seq<InotiDir>, ws: seq<Watch>, path: CString, n: nat, repr: set<InotiDir>)
    requires n <= |ws| == |all| && NoDup(all)
    requires forall k :: 0 <= k < |all| ==> all[k] in repr
    ensures forall k :: 0 <= k < |SparedCells(all, ws, path, n)| ==> SparedCells(all, ws, path, n)[k] in repr
    ensures forall j :: n <= j < |all| ==> all[j] !in SparedCells(all, ws, path, n)
    ensures NoDup(SparedCells(all, ws, path, n))
  {
    if n > 0 {
      SparedCellsEarlier(all, ws, path, n - 1, repr);
    }
  }

  lemma {:induction false} SparedLabelled(all: seq<InotiDir>, ws: seq<Watch>, path: CString, n: nat)
    requires n <= |ws| == |all| && Labelled(all, ws)
    ensures Labelled(SparedCells(all, ws, path, n), Spared(ws, path, n))
  {
    if n > 0 {
      SparedLabelled(all, ws, path, n - 1);
      assert ws[n - 1] == Watch(all[n - 1].name, all[n - 1].wd);
    }
  }

  /** In the middle of a recursive removal: the cells kept so far are linked
      to each other and then to the first one not yet looked at. */
  ghost predicate Trimmed(kept: seq<InotiDir>, cur: InotiDir?)
    reads kept`next
  {
    forall k {:trigger kept[k].next} :: 0 <= k < |kept| ==> kept[k].next == if k + 1 < |kept| then kept[k + 1] else cur
  }

  /** The cells from position `i` on are still linked as they were. */
  ghost predicate LinkedFrom(all: seq<InotiDir>, i: nat)
    reads all`next
  {
    forall k {:trigger all[k].next} :: i <= k < |all| ==> all[k].next == After(all, k)
  }

  class InotiList {
    var first_inoti_node: InotiDir?
    ghost var cells: seq<InotiDir>
    ghost var watches: seq<Watch>
    ghost var Repr: set<InotiDir>

    ghost predicate Valid()
      reads this, Repr
    {
      && (forall i :: 0 <= i < |cells| ==> cells[i] in Repr)
      && first_inoti_node == (if cells == [] then null else cells[0])
      && Linked(cells)
      && Labelled(cells, watches)
    }

    constructor ()
      ensures Valid() && watches == [] && fresh(Repr)
    {
      first_inoti_node, cells, watches, Repr := null, [], [], {};
    }

    /** The search loop: the node with that name, or else null and the tail. */
    method Find(path: CString) returns (node: InotiDir?, prv_node: InotiDir?)
      requires Valid()
      ensures var k := FirstNamed(watches, path);
              && node == (if k < |cells| then cells[k] else null)
              && prv_node == (if k > 0 then cells[k - 1] else null)
    {
      node, prv_node := first_inoti_node, null;
      ghost var i := 0;
      while node != null && node.name != path
        invariant 0 <= i <= FirstNamed(watches, path)
        invariant node == if i < |cells| then cells[i] else null
        invariant prv_node == if i > 0 then cells[i - 1] else null
        decreases |cells| - i
      {
        assert node.next == After(cells, i) && watches[i].name == node.name;
        prv_node, node := node, node.next;
        i := i + 1;
      }
      assert node != null ==> watches[i].name == path;
    }

    /** ms_inoti_add_watch; `wd` is the kernel's answer. */
    method AddWatch(path: CString, wd: int)
      requires Valid()
      modifies this, Repr
      ensures Valid() && fresh(Repr - old(Repr)) && watches == Added(old(watches), path, wd)
    {
      var node, prv_node := Find(path);
      if node != null {
        assert watches[FirstNamed(watches, path)].name == path;
        return;
      }
      if wd > 0 {
        NoCellTwice(cells);
        var current_dir := new InotiDir(path, wd);
        if first_inoti_node == null {
          first_inoti_node := current_dir;
        } else {
          prv_node.next := current_dir;
        }
        ghost var before := cells;
        cells, watches, Repr := cells + [current_dir], watches + [Watch(path, wd)], Repr + {current_dir};
        LinkedSnoc(before, current_dir);
      }
    }

    /** ms_inoti_modify_watch. Like the source it needs a first node. */
    method ModifyWatch(path_from: CString, path_to: CString, wd: int)
      requires Valid() && watches != []
      modifies this, Repr
      ensures Valid() && fresh(Repr - old(Repr)) && watches == Modified(old(watches), path_from, path_to, wd)
    {
      var find := false;
      if first_inoti_node.name == path_from {
        assert watches[0].name == path_from;
      } else {
        assert watches[0].name != path_from;
        var mod_node, prv_node := Find(path_from);
        if mod_node != null {
          ghost var k := FirstNamed(watches, path_from);
          NoCellTwice(cells);
          mod_node.name := path_to;
          watches := watches[k := Watch(path_to, watches[k].wd)];
          find := true;
        }
      }
      if !find {
        AddWatch(path_to, wd);
      }
    }

    /** One cell of the recursive removal: bypass it or keep it. */
    method TrimOne(
        path: CString, cur_node: InotiDir, prv: InotiDir?,
        ghost all: seq<InotiDir>, ghost i: nat, ghost kept: seq<InotiDir>)
      returns (prv_node: InotiDir?)
      requires i < |all| && cur_node == all[i] && Trimmed(kept, cur_node) && LinkedFrom(all, i)
      requires NoDup(kept) && forall j :: i <= j < |all| ==> all[j] !in kept
      requires prv == if kept == [] then null else kept[|kept| - 1]
      requires first_inoti_node == if kept == [] then cur_node else kept[0]
      modifies this`first_inoti_node, (if prv == null then {} else {prv})`next
      ensures LinkedFrom(all, i)
      ensures var gone := Contains(cur_node.name, path);
              var kept' := if gone then kept else kept + [cur_node];
              && Trimmed(kept', After(all, i))
              && prv_node == (if gone then prv else cur_node)
              && first_inoti_node == if kept' == [] then After(all, i) else kept'[0]
    {
      prv_node := prv;
      assert cur_node.next == After(all, i);
      if Contains(cur_node.name, path) {
        if prv_node != null {
          assert forall k :: 0 <= k < |kept| - 1 ==> kept[k] != prv_node;
          prv_node.next := cur_node.next;
        }
        if cur_node == first_inoti_node {
          first_inoti_node := first_inoti_node.next;
        }
      } else {
        prv_node := cur_node;
      }
    }

    /** ms_inoti_remove_watch_recursive: any pattern of removals in one pass. */
    method RemoveWatchRecursive(path: CString)
      requires Valid()
      modifies this, Repr`next
      ensures Valid() && Repr == old(Repr) && watches == WithoutContaining(old(watches), path)
    {
      NoCellTwice(cells);
      ghost var all, ws := cells, watches;
      SparedCellsEarlier(all, ws, path, |ws|, Repr);
      TrimAll(path, all, ws);
      SparedLabelled(all, ws, path, |ws|);
      cells, watches := SparedCells(all, ws, path, |ws|), WithoutContaining(ws, path);
    }

    /** Where the removal stands when the first `i` cells are done. */
    ghost predicate TrimmedTo(
        all: seq<InotiDir>, ws: seq<Watch>, path: CString, i: nat, prv_node: InotiDir?, cur_node: InotiDir?)
      requires i <= |all| == |ws|
      reads this`first_inoti_node, all`next, SparedCells(all, ws, path, i)`next
    {
      && cur_node == (if i < |all| then all[i] else null)
      && LinkedFrom(all, i)
      && var kept := SparedCells(all, ws, path, i);
         && Trimmed(kept, cur_node)
         && prv_node == (if kept == [] then null else kept[|kept| - 1])
         && first_inoti_node == if kept == [] then cur_node else kept[0]
    }

    /** Its loop. */
    method TrimAll(path: CString, ghost all: seq<InotiDir>, ghost ws: seq<Watch>)
      requires NoDup(all) && Labelled(all, ws) && LinkedFrom(all, 0)
      requires first_inoti_node == if all == [] then null else all[0]
      modifies this`first_inoti_node, all`next
      ensures Trimmed(SparedCells(all, ws, path, |ws|), null)
      ensures var kept := SparedCells(all, ws, path, |ws|);
              first_inoti_node == if kept == [] then null else kept[0]
    {
      var prv_node: InotiDir?, cur_node := null, first_inoti_node;
      ghost var i := 0;
      while cur_node != null
        invariant Labelled(all, ws) && i <= |all| && TrimmedTo(all, ws, path, i, prv_node, cur_node)
        decreases |all| - i
      {
        prv_node, cur_node := TrimStep(path, cur_node, prv_node, all, ws, i);
        i := i + 1;
      }
    }

    /** One round of it. */
    method TrimStep(
        path: CString, cur: InotiDir, prv: InotiDir?, ghost all: seq<InotiDir>, ghost ws: seq<Watch>, ghost i: nat)
      returns (prv_node: InotiDir?, cur_node: InotiDir?)
      requires NoDup(all) && Labelled(all, ws) && i < |all| && TrimmedTo(all, ws, path, i, prv, cur)
      modifies this`first_inoti_node, all`next
      ensures TrimmedTo(all, ws, path, i + 1, prv_node, cur_node)
    {
      ghost var kept := SparedCells(all, ws, path, i);
      SparedCellsEarlier(all, ws, path, i, set c | c in all);
      assert ws[i].name == cur.name;
      assert SparedCells(all, ws, path, i + 1) == if Contains(cur.name, path) then kept else kept + [cur];
      prv_node := TrimOne(path, cur, prv, all, i, kept);
      assert cur.next == After(all, i);
      cur_node := cur.next;
    }

    /** ms_inoti_remove_watch. Like the source it needs a first node. */
    method RemoveWatch(path: CString)
      requires Valid() && watches != []
      modifies this, Repr`next
      ensures Valid() && Repr == old(Repr) && watches == WithoutFirst(old(watches), path)
    {
      NoCellTwice(cells);
      ghost var before, k := cells, FirstNamed(watches, path);
      assert watches[0].name == first_inoti_node.name;
      assert first_inoti_node.next == After(cells, 0);
      if first_inoti_node.name == path {
        first_inoti_node := first_inoti_node.next;
      } else {
        var del_node, prv_node := Find(path);
        if del_node == null {
          return;
        }
        assert del_node.next == After(cells, k);
        prv_node.next := del_node.next;
      }
      cells, watches := cells[..k] + cells[k + 1..], watches[..k] + watches[k + 1..];
      LinkedCut(before, k);
    }

    /** _ms_inoti_get_full_path */
    method GetFullPath(wd: int, name: CString) returns (path: Option<CString>)
      requires Valid()
      ensures watches == [] ==> path == None
      ensures watches != [] ==>
                var full := StrAppend(watches[Resolve(watches, wd)].name, name);
                path == if full.Ok? then Some(full.value) else None
    {
      if first_inoti_node == null {
        return None;
      }
      var node := first_inoti_node;
      ghost var i := 0;
      assert cells[i..] == cells && watches[i..] == watches;
      while node.next != null && node.wd != wd
        invariant 0 <= i < |cells| && node == cells[i]
        invariant Resolve(watches, wd) == i + Resolve(watches[i..], wd)
        decreases |cells| - i
      {
        assert node.next == After(cells, i) && watches[i].wd == node.wd;
        assert watches[i..][1..] == watches[i + 1..];
        node := node.next;
        i := i + 1;
      }
      assert node.next == After(cells, i) && watches[i] == Watch(node.name, node.wd);
      var full := StrAppend(node.name, name);
      path := if full.Ok? then Some(full.value) else None;
    }
  }

  lemma LinkedSnoc(cells: seq<InotiDir>, last: InotiDir)
    requires NoDup(cells) && last.next == null
    requires forall i {:trigger cells[i].next} ::
               0 <= i < |cells| && cells[i] != cells[|cells| - 1] ==> cells[i].next == After(cells, i)
    requires cells != [] ==> cells[|cells| - 1].next == last
    ensures Linked(cells + [last])
  {
    var longer := cells + [last];
    forall i | 0 <= i < |longer| ensures longer[i].next == After(longer, i) {
      if i < |cells| - 1 {
        assert cells[i].next == After(cells, i);
      }
    }
  }

  /** Bypassing the cell at `k`. */
  lemma LinkedCut(cells: seq<InotiDir>, k: nat)
    requires NoDup(cells) && k < |cells|
    requires forall i {:trigger cells[i].next} ::
               0 <= i < |cells| && i + 1 != k ==> cells[i].next == After(cells, i)
    requires k > 0 ==> cells[k - 1].next == After(cells, k)
    ensures Linked(cells[..k] + cells[k + 1..])
  {
    var shorter := cells[..k] + cells[k + 1..];
    forall i | 0 <= i < |shorter| ensures shorter[i].next == After(shorter, i) {
      var j := if i < k then i else i + 1;
      assert shorter[i] == cells[j];
      assert j + 1 != k ==> cells[j].next == After(cells, j);
    }
  }
}
