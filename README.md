# paged_vector in Dafny

A Dafny model of `paged_vector<T>`, a growable random-access sequence. It
stores its elements in fixed pages of 64 slots rather than in one contiguous
block. The container keeps three things:

- a page table (`page_array`), whose entries are page handles or null;
- the number of table entries (`page_capacity`);
- the logical size (`last_index`).

Logical index `i` lives at table entry `i >> 6`, offset `i & 63`. Growing the
table copies page handles only. So a page keeps its identity, and its elements
keep their addresses, until that page is destroyed.

Files:

- `page_math.dfy` (module `PageMath`): the index split and `page_divide_ceil`,
  both as pure functions, with lemmas about them.
- `paged_vector.dfy` (module `PagedVectors`): class `PagedVector<T>`.
  - Its fields are `lastIndex`, `pageArray: array?<array?<T>>` and `pageCapacity`.
  - A destroyed page is a null table entry.
  - The ghost field `Contents` holds the elements in index order, and the ghost
    field `Repr` is the footprint.
  - `Valid()` says: the table is well formed; the table has at least
    `PageDivideCeil(size)` entries; every element sits in a live page; and the
    slots hold `Contents`.
  - Operations that change the container, public or private, are methods.
    The reads `Size`, `NumPages`, `Capacity`, `Get` and `Back` are functions,
    and so is `PageDivideCeil` in `PageMath`.
  - Each method's `ensures` states what it does to the size, the elements,
    the page count and the table entries, among those its `modifies` clause
    lets it change. What that clause leaves out stays as it was.
- `iterator.dfy` (module `Iterators`): the nested iterator.
  - It is a datatype holding a position and an owner.
  - Its moves and comparisons are functions.
  - Lemmas relate the iterator to the owner's elements.
- `scenarios.dfy` (module `Scenarios`): client code.
  - A push/pop/resize sequence.
  - The shrink-then-regrow hazard.
  - Independence of a copy from its original.
  - Copy assignment into a larger container, which keeps the target's pages.
  - Moves, after which both containers take further pushes.

`value_type{}` has no Dafny counterpart. The default constructor takes it as
`zero`, and `Resize(n)` fills new elements with it. The model also fills a
created page with `zero` (see "Left out" for how that differs from the source).

Behaviour worth knowing:

- `capacity()` is `num_pages() * 64`, and `num_pages()` is `last_index >> 6`.
  So capacity is the size rounded down to whole pages. It is not
  `page_capacity * 64`, and it can be smaller than `size()`: after
  `resize(70)` it is 64, not 128 (`Scenarios.PushPopResize`).
- A shrinking `resize` does not lower `page_capacity`. It nulls the entries
  `[ceil(n/64), old_size >> 6)` and no others. So "every entry below
  `page_capacity` holds a page" is not an invariant.
  - A later `resize` that stays within `page_capacity` allocates nothing.
  - It then writes its new elements through whatever the table holds.
  - If an entry it writes through was destroyed, the source writes through a
    null page.
  - `Resize`, `ResizeWith`, `PushBack` and `CopyAssign` therefore require
    `GrowthPagesLive(n)`: every entry that growth writes through and that the
    table already has must hold a page.
  - `Scenarios.ShrinkThenRegrow` builds a container where this fails for
    `resize(1)`.
- A shrink followed by a regrow does not re-initialise elements below the
  smaller size. Those elements keep their values. Only `[old size, n)` is
  written.

## Model

| member | source | states |
|---|---|---|
| `PageMath.ShiftMaskSplit` | paged_vector.h:18-20 | on 64-bit indices, `(i >> 6) * 64 + (i & 63) == i` and `(i & 63) < 64` |
| `PageMath.PageOf` | paged_vector.h:153 | the page of index `i` is the one whose run of 64 indices contains `i`: `p * 64 <= i < p * 64 + 64` |
| `PageMath.OffsetOf` | paged_vector.h:153 | the offset is below 64 and is how far `i` lies past the first index of its page |
| `PageMath.SplitOfSlot` | paged_vector.h:152-157 | every (page, offset < 64) pair is the split of exactly one index (the split is onto) |
| `PageMath.SplitInjective` | paged_vector.h:152-157 | distinct indices map to distinct (page, offset) slots |
| `PageMath.PageDivideCeil` | paged_vector.h:217-219 | `k * 64 >= n`, and `k - 1` pages are too few: the least page count holding `n` slots |
| `PageMath.PageDivideCeilIsLeast` | paged_vector.h:217-219 | no page count that holds `n` slots is below `page_divide_ceil(n)` |
| `PageMath.PageBelowCeil` | paged_vector.h:188-197 | every index below `n` lies in a page below `page_divide_ceil(n)` |
| `PageMath.CeilCoversWholePages` | paged_vector.h:165-169 | for `m <= n`, `page_divide_ceil(n)` is at least `m >> 6` and at least `page_divide_ceil(m)`, so `reserve` never destroys a page |
| `PagedVectors.PagedVector.constructor` | paged_vector.h:26 | a new container is empty, has no table and holds zero pages |
| `PagedVectors.PagedVector.Copy` | paged_vector.h:27-34 | the copy holds the same elements in `page_divide_ceil(size)` fresh pages, none shared with the original |
| `PagedVectors.PagedVector.CopyAssign` | paged_vector.h:35-44 | afterwards the elements equal the other's; the page count and the table entries are as `resize(other.size())` leaves them (entries `[ceil(n/64), old_size >> 6)` nulled, the others kept, new ones fresh); no page is shared |
| `PagedVectors.PagedVector.CopyElements` | paged_vector.h:39-41 | with equal sizes, copying slot by slot makes the elements equal the other's and leaves the table entries as they were |
| `PagedVectors.PagedVector.Move` | paged_vector.h:49-57 | takes over the other's table object, page count, elements and footprint; the other is left empty with a null table and a footprint of itself alone, so both stay usable |
| `PagedVectors.PagedVector.MoveAssign` | paged_vector.h:58-70 | every entry of its old table is nulled (the `clear()`); it then takes over the other's table, page count, elements and footprint; the other is left empty with a footprint of itself alone, so both stay usable |
| `PagedVectors.PagedVector.Get` | paged_vector.h:155-157 | any index whose page exists can be read; below the size it reads element `i` |
| `PagedVectors.PagedVector.Set` | paged_vector.h:152-154 | afterwards reading `i` gives `v`; every other readable index keeps its value; `Contents` changes at `i` only when `i < size` |
| `PagedVectors.PagedVector.Size` | paged_vector.h:158-160 | `size()` is the number of elements |
| `PagedVectors.PagedVector.NumPages` | paged_vector.h:221-223 | the number of whole pages the size fills: `r * 64 <= size < (r + 1) * 64` |
| `PagedVectors.PagedVector.Capacity` | paged_vector.h:161-164 | a multiple of 64, at most the size and within 64 of it; it does not depend on the page count |
| `PagedVectors.PagedVector.Reserve` | paged_vector.h:165-169 | size and elements unchanged; if `n > size`, at least `page_divide_ceil(n)` pages; no table entry changes and no page is written |
| `PagedVectors.PagedVector.Clear` | paged_vector.h:170-179 | every entry of the old table is nulled; size 0, page count 0, no table |
| `PagedVectors.PagedVector.Resize` | paged_vector.h:180-182 | `resize(n)` is `resize(n, value_type{})`, with the same postconditions |
| `PagedVectors.PagedVector.ResizeWith` | paged_vector.h:184-201 | size becomes `n`. Shrinking truncates the elements, keeps the page count, nulls exactly `[ceil(n/64), old_size >> 6)` and writes no page. Growing keeps the old elements, appends copies of `value`, and keeps existing pages at their entries; entries past the old page count are fresh |
| `PagedVectors.PagedVector.GrowTo` | paged_vector.h:188-200 | the growing path: old elements kept, `[old_size, n)` set to `value`, existing table entries kept, new entries fresh |
| `PagedVectors.PagedVector.PagesForGrowth` | paged_vector.h:188-194 | growing from the size to `n`, `resize_pages(page_divide_ceil(n))` keeps every existing table entry, adds fresh ones, and leaves every slot in `[size, n)` in a live page |
| `PagedVectors.PagedVector.ShrinkTo` | paged_vector.h:186-194 | the shrinking path: elements cut to `n`, page count kept, exactly `[ceil(n/64), old_size >> 6)` nulled |
| `PagedVectors.PagedVector.PushBack` | paged_vector.h:202-207 | elements become the old elements followed by `v`; `back() == v`; existing table entries kept, new ones fresh |
| `PagedVectors.PagedVector.PopBack` | paged_vector.h:208-210 | on a non-empty container, the last element is dropped and the page count is kept |
| `PagedVectors.PagedVector.Back` | paged_vector.h:212-214 | on a non-empty container, the last element |
| `PagedVectors.PagedVector.DestroyPage` | paged_vector.h:224-228 | the table entry becomes null; no other entry changes |
| `PagedVectors.PagedVector.CreatePage` | paged_vector.h:240-242 | the entry receives a fresh page of 64 default values; no other entry changes |
| `PagedVectors.PagedVector.InitRange` | paged_vector.h:235-239 | every slot in `[start, end)` holds `value`, no other slot changes, the elements are unchanged |
| `PagedVectors.PagedVector.ResizePages` | paged_vector.h:243-265 | the page count never drops. Fewer pages: nulls exactly `[new_pages, num_pages())`. More pages: old handles stay at the same entries, `[old page_capacity, new_pages)` are fresh default pages, and the page count becomes `new_pages` |
| `PagedVectors.PagedVector.DestroyPages` | paged_vector.h:245-251 | exactly the entries `[from, to)` become null |
| `PagedVectors.PagedVector.GrowTable` | paged_vector.h:253-264 | the new table has `new_pages` entries, the same page objects below the old page count, and fresh default pages above it; elements unchanged |
| `PagedVectors.PagedVector.CopyHandles` | paged_vector.h:254-257 | a fresh table of `new_pages` entries holding the current page handles at the same entries, the rest empty |
| `PagedVectors.PagedVector.CreatePages` | paged_vector.h:260-262 | the entries `[from, to)` receive distinct fresh default pages; no other entry changes |
| `Iterators.Begin` | paged_vector.h:145-147 | `begin()` belongs to the container and sits at position 0: no non-negative position precedes it, and it does not precede position 0 |
| `Iterators.End` | paged_vector.h:148-150 | `end()` belongs to the container and lies `size()` positions after `begin()` |
| `Iterators.Inc` | paged_vector.h:83-85 | `++it` lies one position further on, in the same container |
| `Iterators.PostInc` | paged_vector.h:87-90 | `it++` yields the original iterator; the iterator it becomes lies one position further on |
| `Iterators.Dec` | paged_vector.h:102-104 | `--it` lies one position back, in the same container |
| `Iterators.PostDec` | paged_vector.h:106-109 | `it--` yields the original iterator; the iterator it becomes lies one position back |
| `Iterators.Advance` | paged_vector.h:92-100 | `it + k` and `it += k` lie `k` positions on, in the same container |
| `Iterators.Retreat` | paged_vector.h:111-119 | `it - k` and `it -= k` lie `k` positions back, in the same container |
| `Iterators.Distance` | paged_vector.h:121-123 | `a - b` is how far `b` must move to reach `a` |
| `Iterators.Equal` | paged_vector.h:132 | `==` holds exactly when the distance is 0 and the owners are the same |
| `Iterators.NotEqual` | paged_vector.h:133 | `!=` holds exactly when the distance is not 0 or the owners differ |
| `Iterators.Less` | paged_vector.h:134 | `a < b` holds exactly when `b - a > 0`, whatever the owners |
| `Iterators.Greater` | paged_vector.h:135 | `a > b` holds exactly when `a - b > 0`, whatever the owners |
| `Iterators.LessEq` | paged_vector.h:136 | `a <= b` holds exactly when `b - a >= 0` |
| `Iterators.GreaterEq` | paged_vector.h:137 | `a >= b` holds exactly when `a - b >= 0` |
| `Iterators.Deref` | paged_vector.h:130-131 | `*it` reads element `idx` of the owner |
| `Iterators.Subscript` | paged_vector.h:125-128 | as written, `it[k]` equals `*it` for every `k` |
| `Iterators.SubscriptAt` | paged_vector.h:125-128 | corrected `it[k]`: equals `*(it + k)`, element `idx + k` |
| `Iterators.SubscriptIgnoresOffset` | paged_vector.h:125-128 | when elements 0 and 1 differ, `begin()[1]` as written yields element 0 and differs from the corrected value |
| `Iterators.Walk` | paged_vector.h:83-85 | stepping with `++` from `first` until `== last` meets `last - first` elements |
| `Iterators.WalkIsSlice` | paged_vector.h:130-133 | the elements met are exactly the owner's elements in `[first.idx, last.idx)`, in order |
| `Iterators.BeginToEndIsContents` | paged_vector.h:145-150 | `end() - begin() == size()`, and iterating `begin()..end()` yields all elements in index order |
| `Iterators.DerefAgreesWithIndex` | paged_vector.h:152-157 | `*(begin() + k)` equals `(*this)[k]` and element `k` |
| `Iterators.IncDecInverse` | paged_vector.h:83-109 | `++` and `--` undo each other; the post forms yield the original and then step by one |
| `Iterators.AdvanceRetreatInverse` | paged_vector.h:92-123 | `+ k` and `- k` undo each other, `+ k` is `- (-k)`, and `(it + k) - it == k` |
| `Iterators.OrderingByPosition` | paged_vector.h:134-137 | `<`, `>`, `<=`, `>=` compare positions only; exactly one of `<`, `>`, same position holds; `==` implies `<=` and `>=` |
| `Iterators.EqualityNeedsSameOwner` | paged_vector.h:132-137 | at the same position in different containers, iterators are `<=` and `>=` but `!=` |
| `Scenarios.PushPopResize` | paged_vector.h:161-214 | push 1, 2, 3, pop, `resize(70)`: elements `[1, 2]` then 68 defaults, two pages, `capacity() == 64` |
| `Scenarios.ShrinkThenRegrow` | paged_vector.h:243-253 | after `resize(128)` and `resize(0)`, both entries are null but the page count is 2, so `resize(1)` would write into a destroyed page |
| `Scenarios.CopyIntoLargerThenPush` | paged_vector.h:35-44 | copy-assigning 64 elements into a container of 100 keeps its second page, so a following `push_back` succeeds: 64 defaults then 7, two pages |
| `Scenarios.MoveThenPushBoth` | paged_vector.h:49-57 | after move construction, pushes onto both the new and the emptied container succeed: `[1, 3]` and `[2]` |
| `Scenarios.MoveAssignThenPushBoth` | paged_vector.h:58-70 | after move assignment, pushes onto both the target and the emptied source succeed: `[6, 7]` and `[8]` |
| `Scenarios.CopyThenWrite` | paged_vector.h:27-34 | writing element 0 of a copy changes only the copy: it equals the original with element 0 replaced |

## Findings

| source | as written | input that shows it | evidently intended | confidence | as-written member | corrected member |
|---|---|---|---|---|---|---|
| paged_vector.h:125-128 | `operator[](value)` computes `_idx + value` but returns `(*_owner)[_idx]` | `begin()[1]` on a container holding `[a, b]` with `a != b` yields `a` | return `(*_owner)[_idx + value]`, i.e. `*(it + value)` | high (not executed) | `Iterators.SubscriptIgnoresOffset` | `Iterators.SubscriptAt` |

## Left out

- Destruction: the destructor and the element destructor calls are not modelled (paged_vector.h:46-48, 226, 232). Dafny has no object destruction. A destroyed page is a null table entry, and the destructor's effect is that of `Clear`.
- `delete_range` (paged_vector.h:229-234) is not modelled: it only runs element destructors and changes no state the model has. This also leaves out the destruction running twice on slots that `delete_range` already destroyed.
- Allocation failure of `new` (paged_vector.h:241, 254): allocation always succeeds in Dafny.
- Fixed-width integers: sizes and positions are unbounded. The model leaves out these effects:
  - overflow of `size_t` and `int`;
  - the `int` cast in `end()`;
  - the unsigned wrap of `last_index - 1` in `pop_back` and `back` on an empty container, which the model excludes by requiring a non-empty container.
- `PageMath.ShiftMaskSplit` states the split on `bv64`. `PageOf` and `OffsetOf` use division and remainder by 64 on unbounded naturals, and the two are not proved equal.
- `PagedVectors.PagedVector.CreatePage`: the source's `new page` default-initialises the slots, which leaves them indeterminate when `T` is a scalar type. The model fills them with `zero` instead. The same holds for `CreatePages`, `GrowTable` and `ResizePages`, whose contracts state that content. No contract on the elements depends on it: `init_range` writes every slot that becomes an element before it is read.
- `PagedVectors.PagedVector.MoveAssign`: keeps its own `zero` while taking over pages created by the other container. The model assumes every container of one element type holds the same `zero`, as every one has the same `value_type{}` in the source; it does not require it. The same holds for `Move`.
- `PagedVectors.PagedVector.ResizeWith`: requires `GrowthPagesLive(n)`. The source writes through whatever the table holds, and writing through a destroyed page is undefined behaviour; the model excludes it instead of modelling it. The same requirement is on `Resize`, `PushBack` and `CopyAssign`.
- `PagedVectors.PagedVector.CopyAssign`: requires the two containers to share no object, so self-assignment is excluded. In the source, self-assignment is a no-op.
- `PagedVectors.PagedVector.MoveAssign`: requires the two containers to share no object, so self-move is excluded.
- `PagedVectors.PagedVector.Copy`: runs the body of copy assignment, which is the same resize-then-copy loop as paged_vector.h:29-33.
- `PagedVectors.PagedVector.Get`: returns the slot's value. It does not return a reference; writes through a reference are `Set`.
- `PagedVectors.PagedVector.Back`: returns the last element's value, while `back()` (paged_vector.h:212-214) returns a `T&` through which the caller can write; such writes are `Set` at `size() - 1`.
- `PagedVectors.PagedVector.PushBack`: takes a `T`. `push_back` (paged_vector.h:202-203) is a template over any type `V` assignable to `T`; the model takes the value already converted to `T`, so the conversion that the assignment at paged_vector.h:206 performs is not modelled.
- `operator->` (paged_vector.h:131) is modelled only as the element `Deref` reads; addresses are not modelled.
- The uninitialised entries of a freshly allocated `page*` table (paged_vector.h:254) start as null in the model. Every one of them is overwritten before it is read.
- `noexcept`, the includes and `iterator_category` (paged_vector.h:4-9, 75-79) are compile-time matters with no behaviour.
- There is no concurrency: the container has a single owner.
