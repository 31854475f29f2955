/** The list of files that were created but not yet closed: a doubly linked
    list reached from its newest element (media-server-inotify-internal.c). */
module CreateList {
  import opened Base

  datatype Created = Created(wd: int, name: CString)

  /** Position of the most recent occurrence, or -1. */
  function LastIndex(cs: seq<Created>, c: Created): (k: int)
    ensures -1 <= k < |cs|
    ensures k >= 0 ==> cs[k] == c
    ensures forall i :: k < i < |cs| ==> cs[i] != c
  {
    if cs == [] then -1
    else if cs[|cs| - 1] == c then |cs| - 1
    else LastIndex(cs[..|cs| - 1], c)
  }

  function WithoutAt(cs: seq<Created>, k: nat): seq<Created>
    requires k < |cs|
  {
    cs[..k] + cs[k + 1..]
  }

  /** Exactly one occurrence goes, the most recent one. */
  lemma RemovedOnce(cs: seq<Created>, c: Created)
    requires LastIndex(cs, c) >= 0
    ensures multiset(cs) == multiset(WithoutAt(cs, LastIndex(cs, c))) + multiset{c}
  {
    var k := LastIndex(cs, c);
    assert cs == cs[..k] + [cs[k]] + cs[k + 1..];
  }

  class CreateFileInfo {
    const name: CString
    const wd: int
    var previous: CreateFileInfo?
    var next: CreateFileInfo?

    constructor (wd: int, name: CString)
      ensures this.wd == wd && this.name == name && previous == null && next == null
    {
      this.wd, this.name, previous, next := wd, name, null, null;
    }
  }

  ghost function NodeAt(nodes: seq<CreateFileInfo>, i: int): CreateFileInfo? {
    if 0 <= i < |nodes| then nodes[i] else null
  }

  /** next and previous are inverse to each other and end in NULL on both sides. */
  ghost predicate DoublyLinked(nodes: seq<CreateFileInfo>)
    reads nodes
  {
    && NoDup(nodes)
    && (forall i {:trigger nodes[i].next} :: 0 <= i < |nodes| ==> nodes[i].next == NodeAt(nodes, i + 1))
    && (forall i {:trigger nodes[i].previous} :: 0 <= i < |nodes| ==> nodes[i].previous == NodeAt(nodes, i - 1))
  }

  ghost function ContentsOf(nodes: seq<CreateFileInfo>): (cs: seq<Created>)
    ensures |cs| == |nodes|
    ensures forall i {:trigger cs[i]} :: 0 <= i < |nodes| ==> cs[i] == Created(nodes[i].wd, nodes[i].name)
  {
    seq(|nodes|, i requires 0 <= i < |nodes| => Created(nodes[i].wd, nodes[i].name))
  }

  ghost function Cut(nodes: seq<CreateFileInfo>, k: nat): (r: seq<CreateFileInfo>)
    requires k < |nodes|
    ensures |r| == |nodes| - 1
    ensures forall i {:trigger r[i]} :: 0 <= i < |r| ==> r[i] == nodes[if i < k then i else i + 1]
  {
    nodes[..k] + nodes[k + 1..]
  }

  /** Once the neighbours of the node at `k` point past it, the others form a list. */
  lemma CutLinked(nodes: seq<CreateFileInfo>, k: nat)
    requires k < |nodes| && NoDup(nodes)
    requires forall i {:trigger nodes[i].next} ::
               0 <= i < |nodes| ==> nodes[i].next == if i + 1 == k then NodeAt(nodes, k + 1) else NodeAt(nodes, i + 1)
    requires forall i {:trigger nodes[i].previous} ::
               0 <= i < |nodes| ==>
                  nodes[i].previous == if i == k + 1 then NodeAt(nodes, k - 1) else NodeAt(nodes, i - 1)
    ensures DoublyLinked(Cut(nodes, k))
  {
    var r := Cut(nodes, k);
    forall i | 0 <= i < |r| ensures r[i].next == NodeAt(r, i + 1) && r[i].previous == NodeAt(r, i - 1) {
      var j := if i < k then i else i + 1;
      assert r[i] == nodes[j];
      assert nodes[j].next == if j + 1 == k then NodeAt(nodes, k + 1) else NodeAt(nodes, j + 1);
      assert nodes[j].previous == if j == k + 1 then NodeAt(nodes, k - 1) else NodeAt(nodes, j - 1);
    }
  }

  class CreateFileList {
    var latest_create_file: CreateFileInfo?
    ghost var nodes: seq<CreateFileInfo>
    ghost var Repr: set<CreateFileInfo>

    ghost predicate Valid()
      reads this, Repr
    {
      && (forall i :: 0 <= i < |nodes| ==> nodes[i] in Repr)
      && latest_create_file == NodeAt(nodes, |nodes| - 1)
      && DoublyLinked(nodes)
    }

    ghost function Contents(): seq<Created>
      reads this
    {
      ContentsOf(nodes)
    }

    constructor ()
      ensures Valid() && Contents() == [] && fresh(Repr)
    {
      latest_create_file, nodes, Repr := null, [], {};
    }

    /** _ms_inoti_add_create_file_list */
    method Add(wd: int, name: CString)
      requires Valid()
      modifies this, Repr
      ensures Valid() && fresh(Repr - old(Repr))
      ensures Contents() == old(Contents()) + [Created(wd, name)]
    {
      var new_node := new CreateFileInfo(wd, name);
      if latest_create_file == null {
        new_node.previous := null;
      } else {
        latest_create_file.next := new_node;
        new_node.previous := latest_create_file;
      }
      new_node.next := null;
      latest_create_file := new_node;
      nodes, Repr := nodes + [new_node], Repr + {new_node};
      assert Contents() == old(Contents()) + [Created(wd, name)];
    }

    /** _ms_inoti_find_create_file_list: backwards, so the most recent match. */
    method Find(wd: int, name: CString) returns (found: CreateFileInfo?)
      requires Valid()
      ensures found == NodeAt(nodes, LastIndex(Contents(), Created(wd, name)))
    {
      found := latest_create_file;
      ghost var i := |nodes| - 1;
      assert Contents()[..i + 1] == Contents();
      while found != null && !(found.wd == wd && found.name == name)
        invariant -1 <= i < |nodes| && found == NodeAt(nodes, i)
        invariant LastIndex(Contents()[..i + 1], Created(wd, name)) == LastIndex(Contents(), Created(wd, name))
        decreases i
      {
        assert Contents()[i] == Created(found.wd, found.name);
        assert Contents()[..i + 1][..i] == Contents()[..i];
        found := found.previous;
        i := i - 1;
      }
      if found != null {
        assert Contents()[i] == Created(found.wd, found.name);
      }
    }

    /** _ms_inoti_delete_create_file_list: any node of the list, at position `k`. */
    method Delete(node: CreateFileInfo, ghost k: nat)
      requires Valid() && k < |nodes| && node == nodes[k]
      modifies this, Repr
      ensures Valid() && Repr <= old(Repr)
      ensures Contents() == WithoutAt(old(Contents()), k)
    {
      assert node.previous == NodeAt(nodes, k - 1) && node.next == NodeAt(nodes, k + 1);
      if node.previous != null {
        node.previous.next := node.next;
      }
      if node.next != null {
        node.next.previous := node.previous;
      }
      if node == latest_create_file {
        latest_create_file := node.previous;
      }
      CutLinked(nodes, k);
      nodes := Cut(nodes, k);
      assert Contents() == WithoutAt(old(Contents()), k);
    }
  }
}
