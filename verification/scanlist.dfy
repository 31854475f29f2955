/** The global list of directories to scan: `first_scan_node` and its cells. */
module ScanQueue {
  import opened Base

  class ScanData {
    const name: CString
    var next: ScanData?

    constructor (name: CString)
      ensures this.name == name && next == null
    {
      this.name := name;
      next := null;
    }
  }

  class ScanList {
    var first_scan_node: ScanData?
    ghost var cells: seq<ScanData>
    ghost var Repr: set<ScanData>

    ghost predicate Valid()
      reads this, Repr
    {
      && (forall i :: 0 <= i < |cells| ==> cells[i] in Repr)
      && first_scan_node == (if cells == [] then null else cells[0])
      && Linked(cells)
    }

    ghost function Names(): seq<CString>
      reads this
    {
      NamesOf(cells)
    }

    constructor ()
      ensures Valid() && cells == [] && fresh(Repr)
    {
      first_scan_node, cells, Repr := null, [], {};
    }

    /** The search loop of _ms_scan_add_node; `prv_node` is the tail when nothing is found. */
    method Find(full_path: CString) returns (found: bool, prv_node: ScanData?)
      requires Valid()
      ensures found <==> full_path in Names()
      ensures !found ==> prv_node == if cells == [] then null else cells[|cells| - 1]
    {
      var last_node := first_scan_node;
      prv_node := null;
      ghost var i := 0;
      while last_node != null
        invariant 0 <= i <= |cells|
        invariant last_node == if i < |cells| then cells[i] else null
        invariant prv_node == if i > 0 then cells[i - 1] else null
        invariant forall k :: 0 <= k < i ==> Names()[k] != full_path
        decreases |cells| - i
      {
        if last_node.name == full_path {
          assert Names()[i] == full_path;
          return true, prv_node;
        }
        assert last_node.next == After(cells, i);
        prv_node := last_node;
        last_node := last_node.next;
        i := i + 1;
      }
      found := false;
    }

    /** The end of _ms_dir_scan: the list is dropped. */
    method Reset()
      modifies this
      ensures Valid() && Names() == [] && Repr == {}
    {
      first_scan_node, cells, Repr := null, [], {};
    }

    /** The list part of _ms_scan_add_node: append at the tail unless listed. */
    method Add(full_path: CString)
      requires Valid()
      modifies this, Repr
      ensures Valid() && fresh(Repr - old(Repr)) && Names() == AddUnique(old(Names()), full_path)
    {
      var found, prv_node := Find(full_path);
      if found {
        return;
      }
      var current_dir := new ScanData(full_path);
      ghost var before := cells;
      NoCellTwice(cells);
      if first_scan_node == null {
        first_scan_node := current_dir;
      } else {
        prv_node.next := current_dir;
      }
      cells, Repr := cells + [current_dir], Repr + {current_dir};
      LinkedSnoc(before, current_dir);
      assert NamesOf(cells) == NamesOf(before) + [full_path];
    }
  }

  ghost function NamesOf(cells: seq<ScanData>): (names: seq<CString>)
    ensures |names| == |cells|
    ensures forall i {:trigger names[i]} :: 0 <= i < |cells| ==> names[i] == cells[i].name
  {
    seq(|cells|, i requires 0 <= i < |cells| => cells[i].name)
  }

  ghost predicate Linked(cells: seq<ScanData>)
    reads cells
  {
    forall i {:trigger cells[i].next} :: 0 <= i < |cells| ==> cells[i].next == After(cells, i)
  }

  ghost function After(cells: seq<ScanData>, i: nat): ScanData?
    requires i < |cells|
  {
    if i + 1 < |cells| then cells[i + 1] else null
  }

  /** A chain that ends never meets the same cell twice. */
  lemma {:induction false} DifferentTails(cells: seq<ScanData>, i: nat, j: nat)
    requires Linked(cells) && i < j < |cells|
    ensures cells[i] != cells[j]
    decreases |cells| - j
  {
    assert cells[i].next == After(cells, i) && cells[j].next == After(cells, j);
    if j + 1 < |cells| {
      DifferentTails(cells, i + 1, j + 1);
    }
  }

  lemma NoCellTwice(cells: seq<ScanData>)
    requires Linked(cells)
    ensures NoDup(cells)
  {
    forall i, j | 0 <= i < j < |cells| ensures cells[i] != cells[j] {
      DifferentTails(cells, i, j);
    }
  }

  /** Hanging a fresh last cell behind the old last one. */
  lemma LinkedSnoc(cells: seq<ScanData>, last: ScanData)
    requires NoDup(cells) && last.next == null
    requires forall i {:trigger cells[i].next} ::
               0 <= i < |cells| && cells[i] != cells[|cells| - 1] ==> cells[i].next == After(cells, i)
    requires cells != [] ==> cells[|cells| - 1].next == last
    ensures Linked(cells + [last])
  {
    var longer := cells + [last];
    forall i | 0 <= i < |longer| ensures longer[i].next == After(longer, i) {
      if i < |cells| - 1 {
        assert cells[i].next == After(cells, i);
      }
    }
  }
}
