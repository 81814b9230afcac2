/**
 * A growable random-access sequence stored in fixed pages of `PageSize`
 * slots. The container owns a page table (`pageArray`) of `pageCapacity`
 * entries, each either a page of `PageSize` slots or null (a destroyed page),
 * and a logical size (`lastIndex`). Growing the table copies page handles
 * only, so a page keeps its identity (and its elements their addresses) for
 * as long as it is not destroyed.
 */
module PagedVectors {
  import opened PageMath

  class PagedVector<T> {
    /**
     * `value_type{}`: the value `resize(n)` gives new elements. The model also
     * fills every slot of a freshly created page with it. The source has one
     * `value_type{}` per element type, so every container of one element type
     * is assumed to hold the same `zero`; copying and moving between
     * containers rely on that.
     */
    const zero: T

    /** Logical size (`last_index`). */
    var lastIndex: nat
    /** The page table (`page_array`); null until the first page is created. */
    var pageArray: array?<array?<T>>
    /** Number of entries of the page table (`page_capacity`). */
    var pageCapacity: nat

    /** The elements at logical indices `0 .. lastIndex`. */
    ghost var Contents: seq<T>
    /** This object, the page table and every page it has held. */
    ghost var Repr: set<object>

    /**
     * The page table is well formed: it has `pageCapacity` entries, every
     * entry is null or a page of `PageSize` slots, and no page sits in two
     * entries.
     */
    ghost predicate TableValid()
      reads this, Repr
    {
      this in Repr &&
      (pageArray == null ==> pageCapacity == 0) &&
      (pageArray != null ==>
        pageArray in Repr &&
        pageArray.Length == pageCapacity &&
        (forall p :: 0 <= p < pageCapacity && pageArray[p] != null ==>
          pageArray[p] in Repr && pageArray[p].Length == PageSize &&
          pageArray[p] as object != pageArray) &&
        (forall p, q :: 0 <= p < q < pageCapacity && pageArray[p] != null ==>
          pageArray[p] != pageArray[q]))
    }

    /** The page that holds index `i` exists. */
    predicate Addressable(i: nat)
      reads this, pageArray
    {
      pageArray != null && PageOf(i) < pageArray.Length && pageArray[PageOf(i)] != null
    }

    /** Every table entry in `[lo, hi)` that exists in the table holds a page. */
    ghost predicate PagesLive(lo: nat, hi: nat)
      reads this, pageArray
    {
      forall p :: lo <= p < hi && p < pageCapacity ==>
        pageArray != null && p < pageArray.Length && pageArray[p] != null
    }

    /**
     * Growing to `n` elements writes only into live pages: the table entries
     * that the new elements need and that the table already has are not
     * destroyed ones. `resize` itself does not check this.
     */
    ghost predicate GrowthPagesLive(n: nat)
      reads this, pageArray
    {
      n > lastIndex ==> PagesLive(PageDivideCeil(lastIndex), PageDivideCeil(n))
    }

    /** The pages currently reachable from the table. */
    ghost function LivePages(): set<object>
      reads this, pageArray
    {
      if pageArray == null then {}
      else set p | 0 <= p < pageArray.Length && pageArray[p] != null :: pageArray[p] as object
    }

    /**
     * The container invariant: a well-formed table with enough entries for
     * the logical size, a live page under every element, and `Contents`
     * holding exactly the elements in index order.
     */
    ghost predicate Valid()
      reads this, Repr
    {
      TableValid() &&
      PageDivideCeil(lastIndex) <= pageCapacity &&
      |Contents| == lastIndex &&
      forall i :: 0 <= i < lastIndex ==>
        Addressable(i) && pageArray[PageOf(i)][OffsetOf(i)] == Contents[i]
    }

    /** Default construction: an empty container without a page table. */
    constructor (zero: T)
      ensures Valid() && fresh(Repr)
      ensures this.zero == zero
      ensures Contents == [] && pageArray == null && pageCapacity == 0
    {
      this.zero := zero;
      lastIndex := 0;
      pageArray := null;
      pageCapacity := 0;
      Contents := [];
      Repr := {this};
    }

    /**
     * Copy construction: size the new container like `other`, then copy the
     * elements one by one. The copy shares no page with `other`.
     */
    constructor Copy(other: PagedVector<T>)
      requires other.Valid()
      ensures Valid() && fresh(Repr)
      ensures zero == other.zero
      ensures Contents == other.Contents
      ensures pageCapacity == PageDivideCeil(|other.Contents|)
      ensures Repr !! other.Repr
    {
      zero := other.zero;
      lastIndex := 0;
      pageArray := null;
      pageCapacity := 0;
      Contents := [];
      Repr := {this};
      new;
      CopyAssign(other);
    }

    /**
     * Copy assignment: resize to `other`'s size, then copy the elements one by
     * one. Afterwards the two containers hold equal elements in disjoint pages.
     */
    method CopyAssign(other: PagedVector<T>)
      requires Valid() && other.Valid() && Repr !! other.Repr
      requires GrowthPagesLive(other.lastIndex)
      modifies Repr
      ensures Valid() && fresh(Repr - old(Repr))
      ensures Contents == other.Contents
      ensures pageCapacity ==
        if PageDivideCeil(|other.Contents|) > old(pageCapacity) then PageDivideCeil(|other.Contents|) else old(pageCapacity)
      ensures forall p :: 0 <= p < old(pageCapacity) ==>
        pageArray[p] ==
          if PageDivideCeil(|other.Contents|) <= p < PageOf(old(lastIndex)) then null else old(pageArray[p])
      ensures forall p :: old(pageCapacity) <= p < pageCapacity ==> fresh(pageArray[p])
      ensures Repr !! other.Repr
    {
      Resize(other.lastIndex);
      CopyElements(other);
    }

    /**
     * The element loop of copy assignment: with the sizes already equal, copy
     * `other`'s elements slot by slot. Only pages are written, so the page
     * table and its entries stay as they are.
     */
    method CopyElements(other: PagedVector<T>)
      requires Valid() && other.Valid() && Repr !! other.Repr
      requires |Contents| == |other.Contents|
      modifies this`Contents, LivePages()
      ensures Valid() && Contents == other.Contents
      ensures pageArray != null ==> pageArray[..] == old(pageArray[..])
    {
      var i := 0;
      while i < other.lastIndex
        invariant 0 <= i <= other.lastIndex == |Contents|
        invariant Valid() && other.Valid()
        invariant pageArray != null ==> pageArray[..] == old(pageArray[..])
        invariant forall k :: 0 <= k < i ==> Contents[k] == other.Contents[k]
      {
        assert Addressable(i);
        assert pageArray[PageOf(i)] in LivePages();
        Set(i, other.Get(i));
        i := i + 1;
      }
    }

    /**
     * Move construction: take over `other`'s table, pages and size without
     * touching any element, and leave `other` empty.
     */
    constructor Move(other: PagedVector<T>)
      requires other.Valid()
      modifies other
      ensures Valid() && other.Valid()
      ensures zero == other.zero
      ensures Contents == old(other.Contents)
      ensures pageArray == old(other.pageArray) && pageCapacity == old(other.pageCapacity)
      ensures other.Contents == [] && other.pageArray == null && other.pageCapacity == 0
      ensures Repr == old(other.Repr) - {other} + {this} && other.Repr == {other}
      ensures Repr !! other.Repr
    {
      zero := other.zero;
      lastIndex := other.lastIndex;
      pageArray := other.pageArray;
      pageCapacity := other.pageCapacity;
      Contents := other.Contents;
      Repr := other.Repr - {other} + {this};
      new;
      other.pageArray := null;
      other.lastIndex := 0;
      other.pageCapacity := 0;
      other.Contents := [];
      other.Repr := {other};
    }

    /**
     * Move assignment: release this container's pages, take over `other`'s
     * table, pages and size, and leave `other` empty.
     */
    method MoveAssign(other: PagedVector<T>)
      requires Valid() && other.Valid() && Repr !! other.Repr
      modifies Repr, other
      ensures Valid() && other.Valid()
      ensures Contents == old(other.Contents)
      ensures pageArray == old(other.pageArray) && pageCapacity == old(other.pageCapacity)
      ensures other.Contents == [] && other.pageArray == null && other.pageCapacity == 0
      ensures Repr == old(other.Repr) - {other} + {this} && other.Repr == {other}
      ensures old(pageArray) != null ==> forall p :: 0 <= p < old(pageCapacity) ==> old(pageArray)[p] == null
      ensures Repr !! other.Repr
    {
      Clear();
      lastIndex := other.lastIndex;
      pageArray := other.pageArray;
      pageCapacity := other.pageCapacity;
      Contents := other.Contents;
      Repr := other.Repr - {other} + {this};
      other.pageArray := null;
      other.lastIndex := 0;
      other.pageCapacity := 0;
      other.Contents := [];
      other.Repr := {other};
    }

    /**
     * Read access `(*this)[i]`: the slot at page `PageOf(i)`, offset
     * `OffsetOf(i)`. Any index whose page exists may be read; below the size
     * this is the `i`-th element.
     */
    function Get(i: nat): (x: T)
      reads this, Repr
      requires Valid() && Addressable(i)
      ensures i < |Contents| ==> x == Contents[i]
    {
      pageArray[PageOf(i)][OffsetOf(i)]
    }

    /**
     * Write access `(*this)[i] = v`: changes the one slot `i` maps to and no
     * other slot of any page.
     */
    method Set(i: nat, v: T)
      requires Valid() && Addressable(i)
      modifies this`Contents, pageArray[PageOf(i)]
      ensures Valid() && Addressable(i)
      ensures Get(i) == v
      ensures forall j: nat :: j != i && old(Addressable(j)) ==> Addressable(j) && Get(j) == old(Get(j))
      ensures Contents == if i < |old(Contents)| then old(Contents)[i := v] else old(Contents)
    {
      pageArray[PageOf(i)][OffsetOf(i)] := v;
      if i < lastIndex {
        Contents := Contents[i := v];
      }
      forall j: nat | j != i && old(Addressable(j))
        ensures Get(j) == old(Get(j))
      {
        SplitInjective(i, j);
      }
    }

    /** `size()`: the number of elements. */
    function Size(): (r: nat)
      reads this, Repr
      requires Valid()
      ensures r == |Contents|
    {
      lastIndex
    }

    /**
     * `num_pages()`: the number of whole pages the logical size fills,
     * computed from `lastIndex`, not from the page table.
     */
    function NumPages(): (r: nat)
      reads this
      ensures r * PageSize <= lastIndex < r * PageSize + PageSize
    {
      PageOf(lastIndex)
    }

    /**
     * `capacity()`: the largest multiple of the page size not above the
     * size. It never exceeds the size and does not depend on how many
     * pages the table holds.
     */
    function Capacity(): (r: nat)
      reads this
      ensures r % PageSize == 0
      ensures r <= lastIndex < r + PageSize
    {
      NumPages() * PageSize
    }

    /**
     * `reserve(n)`: when `n` exceeds the size, make the table hold at least
     * `PageDivideCeil(n)` pages. The size, the elements and every existing
     * table entry stay as they were.
     */
    method Reserve(n: nat)
      requires Valid()
      modifies Repr
      ensures Valid() && fresh(Repr - old(Repr))
      ensures Contents == old(Contents)
      ensures pageCapacity ==
        if n > old(lastIndex) && PageDivideCeil(n) > old(pageCapacity) then PageDivideCeil(n) else old(pageCapacity)
      ensures n > old(lastIndex) ==> pageCapacity >= PageDivideCeil(n)
      ensures forall p :: 0 <= p < old(pageCapacity) ==> pageArray[p] == old(pageArray[p])
      ensures forall p :: old(pageCapacity) <= p < pageCapacity ==> fresh(pageArray[p])
      ensures unchanged(old(LivePages()))
    {
      if n > lastIndex {
        CeilCoversWholePages(n, lastIndex);
        ResizePages(PageDivideCeil(n));
      }
    }

    /**
     * `clear()`: destroy every page of the table, then forget the table and
     * reset size and page count to zero.
     */
    method Clear()
      requires Valid()
      modifies Repr
      ensures Valid() && Repr == {this}
      ensures Contents == [] && pageArray == null && pageCapacity == 0
      ensures old(pageArray) != null ==> forall p :: 0 <= p < old(pageCapacity) ==> old(pageArray)[p] == null
    {
      if pageArray != null {
        var i := 0;
        while i < pageCapacity
          modifies pageArray
          invariant 0 <= i <= pageCapacity
          invariant forall p :: 0 <= p < i ==> pageArray[p] == null
        {
          DestroyPage(i);
          i := i + 1;
        }
      }
      lastIndex := 0;
      pageCapacity := 0;
      pageArray := null;
      Contents := [];
      Repr := {this};
    }

    /** `resize(n)`: `ResizeWith` with the default value. */
    method Resize(n: nat)
      requires Valid() && GrowthPagesLive(n)
      modifies Repr
      ensures Valid() && fresh(Repr - old(Repr))
      ensures Contents ==
        if n <= |old(Contents)| then old(Contents)[..n]
        else old(Contents) + seq(n - |old(Contents)|, _ => zero)
      ensures pageCapacity ==
        if PageDivideCeil(n) > old(pageCapacity) then PageDivideCeil(n) else old(pageCapacity)
      ensures forall p :: 0 <= p < old(pageCapacity) ==>
        pageArray[p] == if PageDivideCeil(n) <= p < PageOf(old(lastIndex)) then null else old(pageArray[p])
      ensures forall p :: old(pageCapacity) <= p < pageCapacity ==> fresh(pageArray[p])
      ensures n <= old(lastIndex) ==> unchanged(old(LivePages()))
    {
      ResizeWith(n, zero);
    }

    /**
     * `resize(n, value)`: set the size to `n`. Shrinking destroys the table
     * entries `[PageDivideCeil(n), PageOf(old size))` and keeps the page
     * count; growing appends fresh pages when the table is too short and
     * writes `value` into every new element. Elements below both sizes keep
     * their values and their pages.
     */
    method ResizeWith(n: nat, value: T)
      requires Valid() && GrowthPagesLive(n)
      modifies Repr
      ensures Valid() && fresh(Repr - old(Repr))
      ensures Contents ==
        if n <= |old(Contents)| then old(Contents)[..n]
        else old(Contents) + seq(n - |old(Contents)|, _ => value)
      ensures pageCapacity ==
        if PageDivideCeil(n) > old(pageCapacity) then PageDivideCeil(n) else old(pageCapacity)
      ensures forall p :: 0 <= p < old(pageCapacity) ==>
        pageArray[p] == if PageDivideCeil(n) <= p < PageOf(old(lastIndex)) then null else old(pageArray[p])
      ensures forall p :: old(pageCapacity) <= p < pageCapacity ==> fresh(pageArray[p])
      ensures n <= old(lastIndex) ==> unchanged(old(LivePages()))
    {
      if n > lastIndex {
        GrowTo(n, value);
      } else {
        ShrinkTo(n);
      }
    }

    /**
     * The growing path of `resize`: make the table hold `PageDivideCeil(n)`
     * pages, then write `value` into the new elements `[old size, n)`.
     */
    method GrowTo(n: nat, value: T)
      requires Valid() && n > lastIndex && GrowthPagesLive(n)
      modifies Repr
      ensures Valid() && fresh(Repr - old(Repr))
      ensures Contents == old(Contents) + seq(n - |old(Contents)|, _ => value)
      ensures pageCapacity ==
        if PageDivideCeil(n) > old(pageCapacity) then PageDivideCeil(n) else old(pageCapacity)
      ensures forall p :: 0 <= p < old(pageCapacity) ==> pageArray[p] == old(pageArray[p])
      ensures forall p :: old(pageCapacity) <= p < pageCapacity ==> fresh(pageArray[p])
    {
      var oldSize := lastIndex;
      PagesForGrowth(n);
      InitRange(oldSize, n, value);
      ghost var grown := Contents + seq(n - oldSize, _ => value);
      forall i | 0 <= i < n
        ensures Addressable(i) && pageArray[PageOf(i)][OffsetOf(i)] == grown[i]
      {
        if i < oldSize {
          assert grown[i] == Contents[i];
        } else {
          assert grown[i] == value && Get(i) == value;
        }
      }
      Contents := grown;
      lastIndex := n;
    }

    /**
     * The `resize_pages(page_divide_ceil(n))` step of growing to `n`: the
     * table gets enough entries for `n` elements, no existing entry changes,
     * and every slot the new elements will occupy lies in a live page.
     */
    method PagesForGrowth(n: nat)
      requires Valid() && n > lastIndex && GrowthPagesLive(n)
      modifies this, pageArray
      ensures Valid() && fresh(Repr - old(Repr))
      ensures lastIndex == old(lastIndex) && Contents == old(Contents)
      ensures pageCapacity ==
        if PageDivideCeil(n) > old(pageCapacity) then PageDivideCeil(n) else old(pageCapacity)
      ensures forall p :: 0 <= p < old(pageCapacity) ==> pageArray[p] == old(pageArray[p])
      ensures forall p :: old(pageCapacity) <= p < pageCapacity ==> fresh(pageArray[p])
      ensures forall i :: lastIndex <= i < n ==> Addressable(i)
    {
      var oldSize := lastIndex;
      CeilCoversWholePages(n, oldSize);
      ResizePages(PageDivideCeil(n));
      forall i | oldSize <= i < n
        ensures Addressable(i)
      {
        PageBelowCeil(i, n);
        var p := PageOf(i);
        assert p < pageCapacity;
        if p < old(pageCapacity) {
          assert pageArray[p] == old(pageArray[p]);
          if p < PageDivideCeil(oldSize) {
            // the first index of page p is an old element, so the page was live
            SplitOfSlot(p, 0);
            assert old(Addressable(p * PageSize));
          } else {
            assert old(PagesLive(PageDivideCeil(oldSize), PageDivideCeil(n)));
          }
        }
      }
    }

    /**
     * The shrinking path of `resize`: destroy the table entries
     * `[PageDivideCeil(n), PageOf(old size))` and cut the size to `n`. The
     * page count stays, and no page is written.
     */
    method ShrinkTo(n: nat)
      requires Valid() && n <= lastIndex
      modifies this, pageArray
      ensures Valid() && fresh(Repr - old(Repr))
      ensures Contents == old(Contents)[..n]
      ensures pageCapacity == old(pageCapacity)
      ensures forall p :: 0 <= p < old(pageCapacity) ==>
        pageArray[p] == if PageDivideCeil(n) <= p < PageOf(old(lastIndex)) then null else old(pageArray[p])
    {
      CeilCoversWholePages(lastIndex, n);
      ResizePages(PageDivideCeil(n));
      forall i | 0 <= i < n
        ensures Addressable(i) && pageArray[PageOf(i)] == old(pageArray[PageOf(i)])
        ensures pageArray[PageOf(i)][OffsetOf(i)] == Contents[i]
      {
        PageBelowCeil(i, n);
        assert old(Addressable(i));
      }
      Contents := Contents[..n];
      lastIndex := n;
    }

    /**
     * `push_back(v)`: grow by one default element, then overwrite it with `v`.
     * The earlier elements are unchanged and `v` is the new last element.
     */
    method PushBack(v: T)
      requires Valid() && GrowthPagesLive(lastIndex + 1)
      modifies Repr
      ensures Valid() && fresh(Repr - old(Repr))
      ensures Contents == old(Contents) + [v]
      ensures Back() == v
      ensures pageCapacity ==
        if PageDivideCeil(old(lastIndex) + 1) > old(pageCapacity) then PageDivideCeil(old(lastIndex) + 1) else old(pageCapacity)
      ensures forall p :: 0 <= p < old(pageCapacity) ==> pageArray[p] == old(pageArray[p])
      ensures forall p :: old(pageCapacity) <= p < pageCapacity ==> fresh(pageArray[p])
    {
      var idx := lastIndex;
      Resize(lastIndex + 1);
      Set(idx, v);
    }

    /** `pop_back()`: shrink by one element; the caller guarantees the container is not empty. */
    method PopBack()
      requires Valid() && lastIndex > 0
      modifies Repr
      ensures Valid() && fresh(Repr - old(Repr))
      ensures Contents == old(Contents)[..|old(Contents)| - 1]
      ensures pageCapacity == old(pageCapacity)
      ensures forall p :: 0 <= p < old(pageCapacity) ==>
        pageArray[p] == if PageDivideCeil(old(lastIndex) - 1) <= p < PageOf(old(lastIndex)) then null else old(pageArray[p])
    {
      Resize(lastIndex - 1);
    }

    /** `back()`: the last element; the caller guarantees the container is not empty. */
    function Back(): (x: T)
      reads this, Repr
      requires Valid() && lastIndex > 0
      ensures x == Contents[|Contents| - 1]
    {
      Get(lastIndex - 1)
    }

    /** `destroy_page(index)`: release the page at `index` and null its table entry. */
    method DestroyPage(index: nat)
      requires pageArray != null && index < pageArray.Length
      modifies pageArray
      ensures pageArray[..] == old(pageArray[..])[index := null]
    {
      pageArray[index] := null;
    }

    /** `create_page(index)`: put a fresh page of default values at `index`. */
    method CreatePage(index: nat)
      requires pageArray != null && index < pageArray.Length
      modifies pageArray
      ensures pageArray[index] != null && fresh(pageArray[index])
      ensures pageArray[index][..] == seq(PageSize, _ => zero)
      ensures forall p :: 0 <= p < pageArray.Length && p != index ==> pageArray[p] == old(pageArray[p])
    {
      var z := zero;
      var page := new T[PageSize](_ => z);
      pageArray[index] := page;
    }

    /**
     * `init_range(start, end, value)`: write `value` into every slot in
     * `[start, end)`, beyond the current size, and into no other slot.
     */
    method InitRange(start: nat, end: nat, value: T)
      requires Valid() && start == lastIndex <= end
      requires forall i :: start <= i < end ==> Addressable(i)
      modifies this`Contents, LivePages()
      ensures Valid() && Contents == old(Contents)
      ensures forall i :: start <= i < end ==> Addressable(i) && Get(i) == value
      ensures forall j: nat :: (j < start || end <= j) && old(Addressable(j)) ==> Addressable(j) && Get(j) == old(Get(j))
    {
      var i := start;
      while i < end
        invariant start <= i <= end
        invariant Valid() && Contents == old(Contents)
        invariant forall k :: start <= k < end ==> Addressable(k)
        invariant forall k :: start <= k < i ==> Get(k) == value
        invariant forall j: nat :: (j < start || i <= j) && old(Addressable(j)) ==> Addressable(j) && Get(j) == old(Get(j))
      {
        assert Addressable(i);
        assert pageArray[PageOf(i)] in LivePages();
        Set(i, value);
        i := i + 1;
      }
    }

    /**
     * `resize_pages(newPages)`. Fewer pages than the table holds: destroy the
     * entries `[newPages, NumPages())` and keep `pageCapacity`. More pages:
     * build a longer table holding the same page handles in the same entries
     * followed by fresh pages, and raise `pageCapacity` to `newPages`. No
     * element is copied and no page is written.
     */
    method ResizePages(newPages: nat)
      requires Valid()
      modifies this, pageArray
      ensures TableValid() && fresh(Repr - old(Repr))
      ensures lastIndex == old(lastIndex) && Contents == old(Contents)
      ensures pageCapacity == if newPages > old(pageCapacity) then newPages else old(pageCapacity)
      ensures forall p :: 0 <= p < old(pageCapacity) ==>
        pageArray[p] == if newPages <= p < NumPages() then null else old(pageArray[p])
      ensures forall p :: old(pageCapacity) <= p < pageCapacity ==>
        pageArray[p] != null && fresh(pageArray[p]) && pageArray[p][..] == seq(PageSize, _ => zero)
      ensures newPages >= PageDivideCeil(lastIndex) ==> Valid()
    {
      CeilCoversWholePages(lastIndex, lastIndex);
      if newPages < pageCapacity {
        if newPages < NumPages() {
          DestroyPages(newPages, NumPages());
        }
      } else if newPages > pageCapacity {
        GrowTable(newPages);
      }
    }

    /** The destroying loop of `resize_pages`: null the table entries `[from, to)`. */
    method DestroyPages(from: nat, to: nat)
      requires TableValid() && from <= to <= pageCapacity
      modifies pageArray
      ensures TableValid()
      ensures forall p :: 0 <= p < pageCapacity ==>
        pageArray[p] == if from <= p < to then null else old(pageArray[p])
    {
      var i := from;
      while i < to
        invariant from <= i <= to
        invariant forall p :: 0 <= p < pageCapacity ==>
          pageArray[p] == if from <= p < i then null else old(pageArray[p])
      {
        DestroyPage(i);
        i := i + 1;
      }
    }

    /**
     * The growing branch of `resize_pages`: a new table of `newPages` entries
     * receives the old page handles at the same entries, the remaining
     * entries receive fresh pages, and the new table replaces the old one.
     */
    method GrowTable(newPages: nat)
      requires Valid() && newPages > pageCapacity
      modifies this
      ensures Valid() && fresh(Repr - old(Repr))
      ensures lastIndex == old(lastIndex) && Contents == old(Contents)
      ensures pageCapacity == newPages
      ensures forall p :: 0 <= p < old(pageCapacity) ==> pageArray[p] == old(pageArray[p])
      ensures forall p :: old(pageCapacity) <= p < newPages ==>
        pageArray[p] != null && fresh(pageArray[p]) && pageArray[p][..] == seq(PageSize, _ => zero)
    {
      var newArray := CopyHandles(newPages);
      pageArray := newArray;
      CreatePages(pageCapacity, newPages);
      pageCapacity := newPages;
      Repr := Repr + {pageArray} + LivePages();
      forall i | 0 <= i < lastIndex
        ensures Addressable(i) && pageArray[PageOf(i)][OffsetOf(i)] == Contents[i]
      {
        assert old(Addressable(i));
      }
    }

    /** The table-copy loop of `resize_pages`: a fresh table of `newPages` entries starting with the current handles. */
    method CopyHandles(newPages: nat) returns (newArray: array<array?<T>>)
      requires TableValid() && newPages > pageCapacity
      ensures fresh(newArray) && newArray.Length == newPages
      ensures forall p :: 0 <= p < pageCapacity ==> newArray[p] == pageArray[p]
      ensures forall p :: pageCapacity <= p < newPages ==> newArray[p] == null
    {
      newArray := new array?<T>[newPages](_ => null);
      var i := 0;
      while i < pageCapacity
        invariant 0 <= i <= pageCapacity
        invariant forall p :: 0 <= p < i ==> newArray[p] == pageArray[p]
        invariant forall p :: pageCapacity <= p < newPages ==> newArray[p] == null
      {
        newArray[i] := pageArray[i];
        i := i + 1;
      }
    }

    /** The page-creation loop of `resize_pages`: fresh, distinct default pages at the entries `[from, to)`. */
    method CreatePages(from: nat, to: nat)
      requires pageArray != null && from <= to <= pageArray.Length
      modifies pageArray
      ensures forall p :: 0 <= p < pageArray.Length && !(from <= p < to) ==> pageArray[p] == old(pageArray[p])
      ensures forall p :: from <= p < to ==>
        pageArray[p] != null && fresh(pageArray[p]) && pageArray[p][..] == seq(PageSize, _ => zero)
      ensures forall p, q :: from <= p < q < to ==> pageArray[p] != pageArray[q]
    {
      var i := from;
      while i < to
        invariant from <= i <= to
        invariant forall p :: 0 <= p < pageArray.Length && !(from <= p < i) ==> pageArray[p] == old(pageArray[p])
        invariant forall p :: from <= p < i ==>
          pageArray[p] != null && fresh(pageArray[p]) && pageArray[p][..] == seq(PageSize, _ => zero)
        invariant forall p, q :: from <= p < q < i ==> pageArray[p] != pageArray[q]
      {
        CreatePage(i);
        i := i + 1;
      }
    }
  }
}
