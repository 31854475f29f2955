/** `reg_list`: the paths whose registration is in progress, with the loops of
    _ms_insert_reg_list, _ms_find_reg_list and _ms_delete_reg_list. */
module RegList {
  import opened Base

  function RemoveFirst(list: seq<CString>, x: CString): seq<CString> {
    if list == [] then []
    else if list[0] == x then list[1..]
    else [list[0]] + RemoveFirst(list[1..], x)
  }

  lemma {:induction false} RemoveFirstAt(list: seq<CString>, x: CString, i: nat)
    requires i < |list| && list[i] == x && x !in list[..i]
    ensures RemoveFirst(list, x) == list[..i] + list[i + 1..]
  {
    if i > 0 {
      assert list[..i][0] == list[0];
      assert list[1..][..i - 1] == list[..i][1..];
      RemoveFirstAt(list[1..], x, i - 1);
    }
  }

  /** Removing one occurrence from a duplicate-free list removes the element. */
  lemma {:induction false} RemoveFirstMembers(list: seq<CString>, x: CString)
    requires NoDup(list)
    ensures NoDup(RemoveFirst(list, x))
    ensures forall y :: y in RemoveFirst(list, x) <==> y in list && y != x
  {
    if list != [] {
      var rest := list[1..];
      assert forall y :: y in list <==> y == list[0] || y in rest;
      assert list[0] !in rest;
      if list[0] != x {
        RemoveFirstMembers(rest, x);
      }
    }
  }

  lemma {:induction false} RemoveFirstAbsent(list: seq<CString>, x: CString)
    requires x !in list
    ensures RemoveFirst(list, x) == list
  {
    if list != [] {
      RemoveFirstAbsent(list[1..], x);
    }
  }

  class RegisterList {
    var reg_list: seq<CString>

    constructor ()
      ensures reg_list == []
    {
      reg_list := [];
    }

    method Insert(path: CString)
      modifies this
      ensures reg_list == old(reg_list) + [path]
    {
      reg_list := reg_list + [path];
    }

    /** Looks at every element, without stopping at the first match. */
    method Find(path: CString) returns (res: bool)
      ensures res <==> path in reg_list
    {
      res := false;
      for list_index := 0 to |reg_list|
        invariant res <==> path in reg_list[..list_index]
      {
        if reg_list[list_index] == path {
          res := true;
        }
      }
    }

    /** Removes the first match only. */
    method Delete(path: CString)
      modifies this
      ensures reg_list == RemoveFirst(old(reg_list), path)
    {
      var len := |reg_list|;
      var list_index := 0;
      while list_index < len
        invariant list_index <= len && reg_list == old(reg_list)
        invariant path !in reg_list[..list_index]
      {
        if reg_list[list_index] == path {
          RemoveFirstAt(reg_list, path, list_index);
          reg_list := reg_list[..list_index] + reg_list[list_index + 1..];
          return;
        }
        list_index := list_index + 1;
      }
      RemoveFirstAbsent(reg_list, path);
    }
  }
}
