/** Deletion by index and clearing (cs_list/cs_list_delete.c). */
module ListDelete {
  import opened ListRecord

  /** The buffer after removing element `index` of the first `count`: the
      elements before it stay, the later ones move one place left, the
      vacated cell at `count - 1` becomes 0 and the cells from `count` on are
      untouched. */
  function Deleted(s: seq<int>, count: int, index: int): (r: seq<int>)
    requires 0 <= index < count <= |s|
    ensures |r| == |s|
    ensures forall k :: 0 <= k < index ==> r[k] == s[k]
    ensures forall k :: index <= k < count - 1 ==> r[k] == s[k + 1]
    ensures r[count - 1] == 0
    ensures forall k :: count <= k < |s| ==> r[k] == s[k]
  {
    s[..index] + s[index + 1..count] + [0] + s[count..]
  }

  /** The buffer after zeroing its first `n` cells. */
  function Cleared(s: seq<int>, n: int): (r: seq<int>)
    requires 0 <= n <= |s|
    ensures |r| == |s|
    ensures forall k :: 0 <= k < n ==> r[k] == 0
    ensures forall k :: n <= k < |s| ==> r[k] == s[k]
  {
    seq(n, _ => 0) + s[n..]
  }

  /** The per-width helpers `cs_list_delete_char`, `cs_list_delete_int` and
      `cs_list_delete_long`, which differ only in the element type: shift the
      elements after `index` one place left, then zero the cell at
      `count - 1`.  With `index >= count` the loop does not run and the
      final guard fails, so nothing changes. */
  method DeleteElement(s: array<int>, count: int, index: int)
    requires index < count ==> 0 <= index && count <= s.Length
    modifies s
    ensures s[..] == if index < count then Deleted(old(s[..]), count, index) else old(s[..])
  {
    var i := index;
    while i < count - 1
      invariant index <= i
      invariant index < count ==> i < count
      invariant index >= count ==> i == index
      invariant forall k :: 0 <= k < s.Length && k < index ==> s[k] == old(s[k])
      invariant forall k :: index <= k < i ==> s[k] == old(s[k + 1])
      invariant forall k :: 0 <= k < s.Length && i <= k ==> s[k] == old(s[k])
    {
      s[i] := s[i + 1];
      i := i + 1;
    }
    if i == count - 1 {
      s[i] := 0;
    }
    if index < count {
      assert s[..] == Deleted(old(s[..]), count, index);
    }
  }

  /** `cs_list_delete`: out-of-range indices and unknown widths leave the list
      as it was; otherwise the element at `index` is removed and `count`
      drops by one. */
  method Delete(list: CsList, index: int)
    requires list.Valid()
    requires index < list.count && KnownWidth(list.sizeOfType) ==> 0 <= index
    modifies list, list.contate
    ensures list.Valid()
    ensures if index < old(list.count) && KnownWidth(list.sizeOfType)
            then list.count == old(list.count) - 1
              && list.Cells() == Deleted(old(list.Cells()), old(list.count), index)
              && list.Elements() == old(list.Cells()[..index] + list.Cells()[index + 1..list.count])
            else list.count == old(list.count) && list.Cells() == old(list.Cells())
  {
    if index >= list.count {
      return;
    }
    var s, n := list.contate, list.count;
    ghost var before := list.Cells();
    if list.sizeOfType == 1 {
      DeleteElement(s, n, index);
    } else if list.sizeOfType == 4 {
      DeleteElement(s, n, index);
    } else if list.sizeOfType == 8 {
      DeleteElement(s, n, index);
    } else {
      return;
    }
    list.count := n - 1;
    DeletedFits(before, n, index, list.sizeOfType);
    DeletedElements(before, n, index);
    assert list.Cells() == s[..] == Deleted(before, n, index);
  }

  /** Deletion only moves cells and writes 0, so every cell still holds a
      value of the element type. */
  lemma DeletedFits(s: seq<int>, count: int, index: int, w: int)
    requires 0 <= index < count <= |s|
    requires CellsFit(s, w)
    ensures CellsFit(Deleted(s, count, index), w)
  {
  }

  /** Removing element `index` leaves exactly the other elements, in order,
      in the first `count - 1` cells. */
  lemma DeletedElements(s: seq<int>, count: int, index: int)
    requires 0 <= index < count <= |s|
    ensures Deleted(s, count, index)[..count - 1] == s[..index] + s[index + 1..count]
  {
  }

  /** `cs_list_clear`: a null list is left alone; otherwise the first `count`
      elements are zeroed (the effect of `ft_bzero` over
      `count * size_of_type` bytes) and `count` becomes 0. */
  method Clear(list: CsList?)
    requires list != null ==> list.Valid()
    modifies if list == null then {} else {list, list.contate}
    ensures list != null ==>
      list.Valid() && list.count == 0 && list.Cells() == Cleared(old(list.Cells()), old(list.count))
  {
    if list == null {
      return;
    }
    if list.contate != null {
      forall k | 0 <= k < list.count {
        list.contate[k] := 0;
      }
    }
    list.count := 0;
  }

  /** Clearing twice leaves the same buffer as clearing once: the second call
      sees `count == 0` and zeroes nothing; zeroing the same prefix again is
      harmless as well. */
  lemma ClearIdempotent(s: seq<int>, n: int)
    requires 0 <= n <= |s|
    ensures Cleared(Cleared(s, n), 0) == Cleared(s, n)
    ensures Cleared(Cleared(s, n), n) == Cleared(s, n)
  {
  }
}
