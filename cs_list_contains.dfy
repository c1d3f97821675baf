/** Membership search (cs_list/cs_list_contains.c).  Widths 4 and 8 search
    the first `count` elements; width 1 treats the buffer as a
    zero-terminated string and ignores `count`. */
module ListContains {
  import opened ListRecord

  /** The position of the first zero cell of `s`. */
  function FirstZero(s: seq<int>): (k: nat)
    requires 0 in s
    ensures k < |s| && s[k] == 0
    ensures forall j :: 0 <= j < k ==> s[j] != 0
  {
    if s[0] == 0 then 0 else FirstZero(s[1..]) + 1
  }

  /** `c` occurs strictly before the first zero cell of `s`. */
  predicate OccursBeforeZero(s: seq<int>, c: int)
    requires 0 in s
  {
    c in s[..FirstZero(s)]
  }

  /** `cs_list_contains_char`: scan until the first zero cell and report
      whether `c` was met on the way.  A null buffer holds nothing. */
  method ContainsChar(s: array?<int>, c: int) returns (r: int)
    requires s != null ==> 0 in s[..]
    ensures r == if s != null && OccursBeforeZero(s[..], c) then 1 else 0
  {
    if s == null {
      return 0;
    }
    var i := 0;
    while s[i] != 0
      invariant 0 <= i <= FirstZero(s[..])
      invariant c !in s[..i]
      decreases FirstZero(s[..]) - i
    {
      if s[i] == c {
        return 1;
      }
      i := i + 1;
    }
    return 0;
  }

  /** `cs_list_contains_int` and `cs_list_contains_long`, which differ only
      in the element type: scan the first `count` elements for `num`.  With
      `count <= 0` the loop does not run and nothing is found. */
  method ContainsCounted(nums: array?<int>, count: int, num: int) returns (r: int)
    requires 0 < count ==> nums != null && count <= nums.Length
    ensures r == if exists i :: 0 <= i < count && nums[i] == num then 1 else 0
  {
    var i := 0;
    while i < count
      invariant 0 <= i <= if count < 0 then 0 else count
      invariant forall j :: 0 <= j < i ==> nums[j] != num
    {
      if nums[i] == num {
        return 1;
      }
      i := i + 1;
    }
    return 0;
  }

  /** `cs_list_contains`: 0 for a null list or an unknown width; otherwise
      the answer of the helper for the list's width, the item first
      narrowed to the element type as the C casts do. */
  method Contains(list: CsList?, item: int) returns (r: int)
    requires list != null ==> list.Valid()
    requires list != null && list.sizeOfType == 1 && list.contate != null ==> 0 in list.Cells()
    requires InRange(item, 8)
    ensures list == null ==> r == 0
    ensures list != null && list.sizeOfType == 1 ==>
      r == if list.contate != null && OccursBeforeZero(list.Cells(), Narrow(item, 1)) then 1 else 0
    ensures list != null && list.sizeOfType == 4 ==>
      r == if Narrow(item, 4) in list.Elements() then 1 else 0
    ensures list != null && list.sizeOfType == 8 ==>
      r == if item in list.Elements() then 1 else 0
    ensures list != null && !KnownWidth(list.sizeOfType) ==> r == 0
  {
    if list == null {
      return 0;
    }
    if list.sizeOfType == 1 {
      r := ContainsChar(list.contate, Narrow(item, 1));
      return;
    } else if list.sizeOfType == 4 {
      r := ContainsCounted(list.contate, list.count, Narrow(item, 4));
      return;
    } else if list.sizeOfType == 8 {
      r := ContainsCounted(list.contate, list.count, item);
      return;
    }
    return 0;
  }

  /** A zero cell that the scan reaches ends it: what follows the first zero
      is never looked at, whatever it holds. */
  lemma {:induction false} FirstZeroOfPrefix(p: seq<int>, t: seq<int>)
    requires 0 in p
    ensures 0 in p + t
    ensures FirstZero(p + t) == FirstZero(p)
  {
    if p[0] != 0 {
      assert (p + t)[1..] == p[1..] + t;
      FirstZeroOfPrefix(p[1..], t);
    }
  }

  /** The width-1 answer depends only on the cells up to the first zero. */
  lemma CharScanIgnoresTail(s: seq<int>, t: seq<int>, c: int)
    requires 0 in s
    ensures 0 in s[..FirstZero(s) + 1] + t
    ensures OccursBeforeZero(s[..FirstZero(s) + 1] + t, c) == OccursBeforeZero(s, c)
  {
    var p := s[..FirstZero(s) + 1];
    assert p[FirstZero(s)] == 0;
    FirstZeroOfPrefix(p, t);
    assert FirstZero(p) == FirstZero(s);
    assert (p + t)[..FirstZero(s)] == s[..FirstZero(s)];
  }

  /** The width-1 scan never reports 0: it stops on a zero cell before
      comparing it. */
  lemma CharScanNeverFindsZero(s: seq<int>)
    requires 0 in s
    ensures !OccursBeforeZero(s, 0)
  {
  }

  /** A zero inside the first `count` cells hides the cells after it from the
      width-1 scan, although a search bounded by `count` would see them. */
  lemma EmbeddedZeroStopsScan()
    ensures 0 in [97, 98, 0, 99]
    ensures !OccursBeforeZero([97, 98, 0, 99], 99)
    ensures 99 in [97, 98, 0, 99][..4]
  {
    assert [97, 98, 0, 99][2] == 0;
    assert FirstZero([97, 98, 0, 99]) == 2;
    assert [97, 98, 0, 99][..4][3] == 99;
  }
}
