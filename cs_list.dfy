/** The list record `t_cs_list`: an untyped buffer `contate`, a logical
    `count` and an element-width tag `size_of_type`.

    The buffer is modelled as an array of logical elements, one cell per
    element, so the byte-level reinterpretation of `contate` disappears and a
    width only decides which values a cell may hold.  The widths the module
    knows are 1 (`char`), 4 (`int`) and 8 (`long`). */
module ListRecord {

  /** The element widths the dispatchers recognise. */
  predicate KnownWidth(w: int) {
    w == 1 || w == 4 || w == 8
  }

  /** Half the number of values of a `w`-byte integer: 2^(8w - 1). */
  function Half(w: int): (h: int)
    requires KnownWidth(w)
    ensures h >= 0x80
  {
    if w == 1 then 0x80
    else if w == 4 then 0x8000_0000
    else 0x8000_0000_0000_0000
  }

  /** `x` is a value of the signed `w`-byte integer type. */
  predicate InRange(x: int, w: int)
    requires KnownWidth(w)
  {
    -Half(w) <= x < Half(w)
  }

  /** The C conversion of a `long` to the signed `w`-byte type, taken as the
      two's-complement wrap-around that the usual compilers perform. */
  function Narrow(x: int, w: int): (r: int)
    requires KnownWidth(w)
    ensures InRange(r, w)
    ensures InRange(x, w) ==> r == x
  {
    var m := 2 * Half(w);
    var low := x % m;
    if low < Half(w) then low else low - m
  }

  /** `Narrow` is wrap-around: adding 2^(8w) to its argument does not change
      its result.  With the in-range identity in its contract this fixes
      `Narrow` completely. */
  lemma NarrowPeriodic(x: int, w: int)
    requires KnownWidth(w)
    ensures Narrow(x + 2 * Half(w), w) == Narrow(x, w)
  {
    if w == 1 {
      assert (x + 0x100) % 0x100 == x % 0x100;
    } else if w == 4 {
      assert (x + 0x1_0000_0000) % 0x1_0000_0000 == x % 0x1_0000_0000;
    } else {
      assert (x + 0x1_0000_0000_0000_0000) % 0x1_0000_0000_0000_0000
          == x % 0x1_0000_0000_0000_0000;
    }
  }

  /** Every cell of `s` holds a value of the element type of width `w`. */
  predicate CellsFit(s: seq<int>, w: int) {
    KnownWidth(w) ==> forall k :: 0 <= k < |s| ==> InRange(s[k], w)
  }

  /** One `t_cs_list`.  The module never reassigns the buffer pointer or the
      width, so both are constants; only `count` changes. */
  class CsList {
    const contate: array?<int>
    var count: int
    const sizeOfType: int

    /** The cells of the buffer; a null buffer has none. */
    ghost function Cells(): seq<int>
      reads this, contate
    {
      if contate == null then [] else contate[..]
    }

    /** The logical elements occupy a prefix of the buffer, and each cell
        holds a value of the element type. */
    ghost predicate Valid()
      reads this, contate
    {
      0 <= count <= |Cells()| && CellsFit(Cells(), sizeOfType)
    }

    /** The `count` logical elements. */
    ghost function Elements(): seq<int>
      reads this, contate
      requires Valid()
    {
      Cells()[..count]
    }

    /** The record as the caller fills it in; allocation is the caller's. */
    constructor (buffer: array?<int>, n: int, width: int)
      requires if buffer == null then n == 0
               else 0 <= n <= buffer.Length && CellsFit(buffer[..], width)
      ensures Valid()
      ensures contate == buffer && count == n && sizeOfType == width
    {
      contate := buffer;
      count := n;
      sizeOfType := width;
    }
  }
}
