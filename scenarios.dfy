/**
 * Client code driving the container through the sequences of calls its
 * behaviour is best seen in.
 */
module Scenarios {
  import opened PageMath
  import opened PagedVectors

  /** A push onto a container whose one page still has room. */
  method PushWithinFirstPage(v: PagedVector<int>, x: int)
    requires v.Valid() && 1 <= |v.Contents| < PageSize && v.pageCapacity == 1
    modifies v.Repr
    ensures v.Valid() && fresh(v.Repr - old(v.Repr))
    ensures v.Contents == old(v.Contents) + [x] && v.pageCapacity == 1
  {
    assert PageDivideCeil(|v.Contents|) == 1 && PageDivideCeil(|v.Contents| + 1) == 1;
    v.PushBack(x);
  }

  /** A push onto a new container: one element in one fresh page. */
  method NewWithOne(x: int) returns (v: PagedVector<int>)
    ensures v.Valid() && fresh(v.Repr) && v.zero == 0
    ensures v.Contents == [x] && v.pageCapacity == 1
  {
    v := new PagedVector(0);
    assert PageDivideCeil(1) == 1;
    v.PushBack(x);
  }

  /**
   * Three pushes and a pop on a new container: the elements are `[1, 2]`
   * and the one page created by the first push is still in place.
   */
  method PushThreePopOne() returns (v: PagedVector<int>)
    ensures v.Valid() && fresh(v.Repr) && v.zero == 0
    ensures v.Contents == [1, 2] && v.pageCapacity == 1
  {
    v := NewWithOne(1);
    PushWithinFirstPage(v, 2);
    PushWithinFirstPage(v, 3);
    assert v.Contents == [1, 2, 3];
    v.PopBack();
    assert v.Contents == [1, 2];
  }

  /**
   * Three pushes, a pop and a growing resize. The new elements hold the
   * default value, and `capacity()` reports one page although two pages
   * are allocated, because it is computed from the size.
   */
  method PushPopResize() returns (v: PagedVector<int>)
    ensures v.Valid()
    ensures v.Size() == 70 && v.pageCapacity == 2 && v.Capacity() == 64
    ensures v.Contents == [1, 2] + seq(68, _ => 0)
  {
    v := PushThreePopOne();
    assert PageDivideCeil(2) == 1 && PageDivideCeil(70) == 2;
    v.Resize(70);
  }

  /**
   * Growing to two pages and shrinking to nothing destroys both pages but
   * keeps the page count at two; the table is not regrown afterwards, so a
   * following `resize(1)` would write into the destroyed page 0.
   */
  method ShrinkThenRegrow() returns (v: PagedVector<int>)
    ensures v.Valid() && v.Size() == 0 && v.pageCapacity == 2
    ensures v.pageArray != null && v.pageArray[0] == null && v.pageArray[1] == null
    ensures !v.GrowthPagesLive(1)
  {
    v := new PagedVector(0);
    v.Resize(128);
    v.Resize(0);
  }

  /**
   * A copy owns its own pages: writing into the copy leaves the original as
   * it was, so the two then differ exactly at the written index.
   */
  method CopyThenWrite<T>(a: PagedVector<T>, x: T) returns (b: PagedVector<T>)
    requires a.Valid() && a.Size() > 0
    ensures a.Valid() && b.Valid()
    ensures b.Contents == a.Contents[0 := x]
  {
    b := new PagedVector.Copy(a);
    b.Set(0, x);
  }

  /**
   * A new container resized to `n`: `n` default elements in
   * `page_divide_ceil(n)` pages, every one of them live.
   */
  method NewFilled(n: nat) returns (v: PagedVector<int>)
    ensures v.Valid() && fresh(v.Repr)
    ensures v.Contents == seq(n, _ => 0) && v.pageCapacity == PageDivideCeil(n)
    ensures v.PagesLive(0, v.pageCapacity)
  {
    v := new PagedVector(0);
    v.Resize(n);
  }

  /**
   * Copy-assigning a one-page container into a two-page one shrinks the
   * target to one page's worth of elements without destroying its second
   * page, so a following `push_back` writes into that page.
   */
  method CopyIntoLargerThenPush() returns (v: PagedVector<int>)
    ensures v.Valid() && v.pageCapacity == 2
    ensures v.Contents == seq(64, _ => 0) + [7]
  {
    assert PageDivideCeil(64) == 1 && PageDivideCeil(65) == 2 && PageDivideCeil(100) == 2 && PageOf(100) == 1;
    v := NewFilled(100);
    var u := NewFilled(64);
    v.CopyAssign(u);
    assert v.pageArray[1] != null;
    v.PushBack(7);
  }

  /**
   * Both containers stay usable after a move construction: the new one
   * holds the moved elements and takes a push within its page, and the
   * emptied one starts over with a page of its own.
   */
  method MoveThenPushBoth() returns (a: PagedVector<int>, b: PagedVector<int>)
    ensures a.Valid() && b.Valid() && a.Repr !! b.Repr
    ensures a.Contents == [2] && b.Contents == [1, 3]
  {
    a := NewWithOne(1);
    b := new PagedVector.Move(a);
    PushWithinFirstPage(b, 3);
    a.PushBack(2);
  }

  /**
   * Both containers stay usable after a move assignment: the target holds
   * the source's elements, and the emptied source takes a push.
   */
  method MoveAssignThenPushBoth() returns (v: PagedVector<int>, u: PagedVector<int>)
    ensures v.Valid() && u.Valid() && v.Repr !! u.Repr
    ensures v.Contents == [6, 7] && u.Contents == [8]
  {
    v := NewWithOne(5);
    u := NewWithOne(6);
    v.MoveAssign(u);
    PushWithinFirstPage(v, 7);
    u.PushBack(8);
  }
}
