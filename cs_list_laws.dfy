/** How the operations of the list combine: what a search sees after a
    deletion or a clear, and the operations applied to concrete lists. */
module ListLaws {
  import opened ListRecord
  import opened ListDelete
  import opened ListContains

  /** After deleting element `index`, a search over the new `count - 1`
      elements finds exactly the values held by the other old elements. */
  lemma DeleteThenContains(s: seq<int>, count: int, index: int, v: int)
    requires 0 <= index < count <= |s|
    ensures v in Deleted(s, count, index)[..count - 1]
        <==> exists j :: 0 <= j < count && j != index && s[j] == v
  {
    DeletedElements(s, count, index);
    var rest := s[..index] + s[index + 1..count];
    if v in rest {
      var k :| 0 <= k < |rest| && rest[k] == v;
      if k < index {
        assert s[k] == v;
      } else {
        assert s[k + 1] == v;
      }
    }
    if j :| 0 <= j < count && j != index && s[j] == v {
      if j < index {
        assert rest[j] == v;
      } else {
        assert rest[j - 1] == v;
      }
    }
  }

  /** On a width-1 list whose `count` elements hold no zero, deletion writes
      the terminator at the new end, so the width-1 scan afterwards finds
      exactly the values of the other old elements. */
  lemma DeleteThenCharScan(s: seq<int>, count: int, index: int, c: int)
    requires 0 <= index < count <= |s|
    requires forall j :: 0 <= j < count ==> s[j] != 0
    ensures 0 in Deleted(s, count, index)
    ensures FirstZero(Deleted(s, count, index)) == count - 1
    ensures OccursBeforeZero(Deleted(s, count, index), c)
        <==> exists j :: 0 <= j < count && j != index && s[j] == c
  {
    var r := Deleted(s, count, index);
    assert r[count - 1] == 0;
    assert FirstZero(r) == count - 1;
    DeleteThenContains(s, count, index, c);
  }

  /** Clearing a width-1 list with at least one element puts a zero in the
      first cell, so the width-1 scan finds nothing afterwards. */
  lemma ClearThenCharScan(s: seq<int>, count: int, c: int)
    requires 0 < count <= |s|
    ensures 0 in Cleared(s, count)
    ensures FirstZero(Cleared(s, count)) == 0
    ensures !OccursBeforeZero(Cleared(s, count), c)
  {
    assert Cleared(s, count)[0] == 0;
  }

  /** Clearing a width-1 list whose `count` is 0 zeroes nothing, and since
      the width-1 scan ignores `count` it still finds the old string. */
  lemma ClearOfEmptyCharList()
    ensures 0 in Cleared([97, 0], 0)
    ensures OccursBeforeZero(Cleared([97, 0], 0), 97)
  {
  }

  /** Builds the list of 32-bit integers `[10, 20, 30, 40]` and deletes at
      an index past the end and then at index 1. */
  method DeleteExample() returns (list: CsList)
    ensures fresh(list) && fresh(list.contate)
    ensures list.Valid() && list.sizeOfType == 4
    ensures list.Cells() == [10, 30, 40, 0] && list.count == 3
  {
    var a := new int[4];
    a[0], a[1], a[2], a[3] := 10, 20, 30, 40;
    list := new CsList(a, 4, 4);

    Delete(list, 7);
    assert a[..] == [10, 20, 30, 40] && list.count == 4;

    Delete(list, 1);
    assert a[..] == [10, 30, 40, 0] && list.count == 3;
  }

  /** Delete, search and clear, in turn, on one list. */
  method EndToEndExample()
  {
    var list := DeleteExample();
    var a := list.contate;

    var found := Contains(list, 30);
    assert list.Elements()[1] == 30;
    assert found == 1;
    found := Contains(list, 20);
    assert list.Elements() == [10, 30, 40];
    assert found == 0;

    Clear(list);
    assert a[..] == [0, 0, 0, 0] && list.count == 0;
    Clear(list);
    assert a[..] == [0, 0, 0, 0] && list.count == 0;
  }

  /** A string with a zero inside its `count` elements. */
  method StringExample()
  {
    var b := new int[4];
    b[0], b[1], b[2], b[3] := 97, 98, 0, 99;
    var text := new CsList(b, 4, 1);
    assert b[..] == [97, 98, 0, 99];
    assert text.Cells()[2] == 0;
    var found := Contains(text, 99);
    EmbeddedZeroStopsScan();
    assert found == 0;
  }
}
