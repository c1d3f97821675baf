# cs_list: a fixed-width list, modelled in Dafny

`t_cs_list` is a small C list. It holds an untyped buffer `contate`, a logical
`count` and an element-width tag `size_of_type`, which is 1 (`char`), 4 (`int`)
or 8 (`long`). Three operations work on it. Each one dispatches on the width to
a per-width helper:

- `cs_list_delete` removes the element at an index. It shifts the later
  elements one place left in place, zeroes the vacated last cell and
  decrements `count`. An index at or past `count` is ignored, and so is an
  unknown width.
- `cs_list_clear` zeroes the first `count * size_of_type` bytes and sets
  `count` to 0. A null list is ignored.
- `cs_list_contains` is a linear search that returns 1 or 0. For widths 4
  and 8 it searches the first `count` elements. For width 1 it treats the
  buffer as a zero-terminated string and ignores `count`. A null list and an
  unknown width give 0.

The model is in four files:

- `cs_list.dfy` (module `ListRecord`):
  - the record is the class `CsList`;
  - `contate` is an `array?<int>` with one cell per logical element;
  - the buffer pointer and the width are constants, because the module never
    reassigns them, and `count` is a mutable field;
  - `Valid` says that `0 <= count <=` the number of cells, that a null buffer
    has no elements, and that every cell holds a value of the element type;
  - `Narrow` models the C narrowing casts `(char)item` and `(int)item` as
    two's-complement wrap-around.
- `cs_list_delete.dfy` (module `ListDelete`):
  - the in-place shift `DeleteElement` and the dispatcher `Delete`, both
    proved against the function `Deleted`;
  - `Clear`, proved against the function `Cleared`.
- `cs_list_contains.dfy` (module `ListContains`):
  - the two scans, proved against reference definitions: "occurs before the
    first zero" (`FirstZero`, `OccursBeforeZero`) and "occurs among the first
    `count` cells";
  - the dispatcher `Contains`.
- `cs_list_laws.dfy` (module `ListLaws`):
  - lemmas about what a search sees after a delete or a clear;
  - three client methods that apply the operations to concrete lists; one of
    them applies delete, contains and clear in turn to a single list.

The three delete helpers `cs_list_delete_char`, `cs_list_delete_int` and
`cs_list_delete_long` differ only in their element type. Once the buffer is a
sequence of logical elements they are the same loop, so `DeleteElement`
models all three. Likewise, `ContainsCounted` models both
`cs_list_contains_int` and `cs_list_contains_long`.

Two details of the code that the model keeps:

- `cs_list_contains` returns the C `int` 1 or 0.
- `cs_list_clear` does not check the width, unlike `cs_list_delete` and
  `cs_list_contains`. With an unknown width it still zeroes the buffer prefix
  and resets `count`.

## Model

| member | source | states |
|---|---|---|
| `ListRecord.Narrow` | cs_list/cs_list_contains.c:62-64 | The narrowed item is a value of the element type. An item that already fits the type is unchanged. |
| `ListRecord.NarrowPeriodic` | cs_list/cs_list_contains.c:62-64 | Adding 2^(8w) to the item does not change the narrowed value. Together with the contract of `Narrow`, this is two's-complement wrap-around. |
| `ListDelete.Deleted` | cs_list/cs_list_delete.c:15-24 | Deleting at `index` of `count` keeps the length and the prefix `[0, index)`. It moves old `j+1` to `j` for `index <= j < count-1`, puts 0 at `count-1` and leaves every cell from `count` on untouched. |
| `ListDelete.DeleteElement` | cs_list/cs_list_delete.c:15-46 | Each per-width helper leaves the buffer equal to `Deleted` of the old buffer when `index < count`. Otherwise the loop does not run, the `index == count-1` guard fails and the buffer is unchanged. |
| `ListDelete.Delete` | cs_list/cs_list_delete.c:48-61 | These cases leave `count` and the buffer unchanged: `index >= count`, or a width other than 1, 4 or 8. Otherwise `count` drops by exactly 1, the buffer becomes `Deleted` of the old one, and the elements are the old ones without the one at `index`. |
| `ListDelete.DeletedElements` | cs_list/cs_list_delete.c:17-23 | After a deletion, the first `count-1` cells are exactly the old elements other than the one at `index`, in their old order. |
| `ListDelete.DeletedFits` | cs_list/cs_list_delete.c:17-23 | A deletion only moves cells and writes 0, so every cell still holds a value of the element type. |
| `ListDelete.Cleared` | cs_list/cs_list_delete.c:67 | `ft_bzero` over the first `count` elements makes those cells 0 and leaves the rest and the length unchanged. |
| `ListDelete.Clear` | cs_list/cs_list_delete.c:63-69 | A null list is left alone. Otherwise the buffer becomes `Cleared` of the old buffer at the old `count`, `count` becomes 0 and the list stays valid. |
| `ListDelete.ClearIdempotent` | cs_list/cs_list_delete.c:63-69 | A second clear sees `count == 0` and changes nothing. Zeroing the same prefix twice equals zeroing it once. |
| `ListContains.FirstZero` | cs_list/cs_list_contains.c:20 | The index where the width-1 scan stops holds 0, and no cell before it is 0. |
| `ListContains.ContainsChar` | cs_list/cs_list_contains.c:15-27 | The result is 1 exactly when the buffer is non-null and `c` occurs strictly before the first zero cell. Otherwise it is 0. |
| `ListContains.ContainsCounted` | cs_list/cs_list_contains.c:29-55 | The result is 1 exactly when some `i` in `[0, count)` has `nums[i] == num`. Otherwise it is 0, which includes every `count <= 0`. |
| `ListContains.Contains` | cs_list/cs_list_contains.c:57-68 | A null list gives 0. Width 1 gives 1 exactly when the narrowed item occurs before the first zero, whatever `count` is. Width 4 gives 1 exactly when the narrowed item is among the `count` elements, and width 8 when the item is. Any other width gives 0. |
| `ListContains.FirstZeroOfPrefix` | cs_list/cs_list_contains.c:20-25 | Whatever follows a zero cell does not move the point where the scan stops. |
| `ListContains.CharScanIgnoresTail` | cs_list/cs_list_contains.c:20-25 | The width-1 answer depends only on the cells up to and including the first zero. The cells after it are never read. |
| `ListContains.CharScanNeverFindsZero` | cs_list/cs_list_contains.c:20-22 | The width-1 scan never reports the value 0, because it stops on a zero cell before comparing it. |
| `ListContains.EmbeddedZeroStopsScan` | cs_list/cs_list_contains.c:20-25 | In `['a','b',0,'c']` the width-1 scan does not find `'c'`, although a search bounded by `count = 4` would. |
| `ListLaws.DeleteThenContains` | cs_list/cs_list_delete.c:48-61 | After a deletion, a value is among the new `count-1` elements exactly when some other old element held it. |
| `ListLaws.DeleteThenCharScan` | cs_list/cs_list_delete.c:22-23 | Take a width-1 list with no zero among its elements. Deletion puts the terminator at the new end, so the scan finds exactly the values of the other old elements. |
| `ListLaws.ClearThenCharScan` | cs_list/cs_list_delete.c:67-68 | Clearing a non-empty width-1 list zeroes its first cell, so the width-1 scan then finds nothing. |
| `ListLaws.ClearOfEmptyCharList` | cs_list/cs_list_delete.c:67 | Clearing a width-1 list whose `count` is 0 zeroes nothing, so the scan, which ignores `count`, still finds the old string. |

## Left out

- `ft_bzero` belongs to libft, which is not part of this model. Only its effect is modelled: the first `count` cells become 0.
- The header `cs_list.h` is not part of this model. The struct layout and the raw reinterpretation of `void *contate` are replaced by one array of logical elements and a width tag.
- ListDelete.Clear: for a width other than 1, 4 or 8, the model zeroes `count` cells. The source zeroes `count * size_of_type` bytes, which has no meaning in terms of elements.
- Signedness of `char` is implementation-defined. The model takes width-1 cells and the narrowed item as signed bytes. With unsigned `char`, equality of bytes is the same relation.
- ListDelete.Delete requires a non-null list, because the source dereferences it without a check.
- ListDelete.Delete requires `index >= 0` when the index passes the guard and the width is known. A negative index would write outside the buffer.
- ListContains.Contains requires, for width 1 and a non-null buffer, a zero cell somewhere in the buffer. Without one, the scan reads past the end.
- ListContains.Contains requires the item to be a 64-bit value, because the source parameter is a `long`.
- C `int` overflow of `count`, `index` and `count * size_of_type` is not modelled. `count` is between 0 and the buffer length, so `count - 1` and `index + 1` stay in range.
- Allocation, capacity management and deallocation are not modelled. The code has none; the caller builds the record, which the constructor of `CsList` stands for.
