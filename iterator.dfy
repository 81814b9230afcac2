/**
 * The random-access iterator of the paged container: a signed position
 * (`_idx`) and the container it walks (`_owner`). Moving and comparing
 * iterators is integer arithmetic on the position; dereferencing reads the
 * owner's slot at that position.
 */
module Iterators {
  import opened PagedVectors

  datatype Iterator<T> = Iterator(idx: int, owner: PagedVector<T>)

  /** `begin()`: position 0; no non-negative position of the container precedes it. */
  function Begin<T>(v: PagedVector<T>): (it: Iterator<T>)
    ensures it.owner == v
    ensures forall k: nat :: !Less(Iterator(k, v), it)
    ensures !Less(it, Iterator(0, v))
  {
    Iterator(0, v)
  }

  /** `end()`: one past the last element, `size()` positions after `begin()`. */
  function End<T>(v: PagedVector<T>): (it: Iterator<T>)
    reads v
    ensures it.owner == v && Distance(it, Begin(v)) == v.lastIndex
  {
    Iterator(v.lastIndex, v)
  }

  /** `++it`: one position further on in the same container. */
  function Inc<T>(it: Iterator<T>): (r: Iterator<T>)
    ensures r.owner == it.owner && Distance(r, it) == 1
  {
    it.(idx := it.idx + 1)
  }

  /** `it++`: the original iterator, and the iterator it has become. */
  function PostInc<T>(it: Iterator<T>): (r: (Iterator<T>, Iterator<T>))
    ensures r.0 == it
    ensures r.1.owner == it.owner && Distance(r.1, it) == 1
  {
    (it, Inc(it))
  }

  /** `--it`: one position back in the same container. */
  function Dec<T>(it: Iterator<T>): (r: Iterator<T>)
    ensures r.owner == it.owner && Distance(it, r) == 1
  {
    it.(idx := it.idx - 1)
  }

  /** `it--`: the original iterator, and the iterator it has become. */
  function PostDec<T>(it: Iterator<T>): (r: (Iterator<T>, Iterator<T>))
    ensures r.0 == it
    ensures r.1.owner == it.owner && Distance(it, r.1) == 1
  {
    (it, Dec(it))
  }

  /** `it + k`, and the iterator `it += k` leaves behind: `k` positions on. */
  function Advance<T>(it: Iterator<T>, k: int): (r: Iterator<T>)
    ensures r.owner == it.owner && Distance(r, it) == k
  {
    it.(idx := it.idx + k)
  }

  /** `it - k`, and the iterator `it -= k` leaves behind: `k` positions back. */
  function Retreat<T>(it: Iterator<T>, k: int): (r: Iterator<T>)
    ensures r.owner == it.owner && Distance(it, r) == k
  {
    it.(idx := it.idx - k)
  }

  /** `a - b`: how many positions `b` must move to reach `a`. */
  function Distance<T>(a: Iterator<T>, b: Iterator<T>): (d: int)
    ensures b.idx + d == a.idx
  {
    a.idx - b.idx
  }

  /** `a == b`: no distance between them, in the same container. */
  predicate Equal<T>(a: Iterator<T>, b: Iterator<T>)
    ensures Equal(a, b) <==> Distance(a, b) == 0 && a.owner == b.owner
  {
    a.idx == b.idx && a.owner == b.owner
  }

  /** `a != b`: different positions or different containers. */
  predicate NotEqual<T>(a: Iterator<T>, b: Iterator<T>)
    ensures NotEqual(a, b) <==> Distance(a, b) != 0 || a.owner != b.owner
  {
    !Equal(a, b)
  }

  /** `a < b`: `b` lies further on, whatever the containers. */
  predicate Less<T>(a: Iterator<T>, b: Iterator<T>)
    ensures Less(a, b) <==> Distance(b, a) > 0
  {
    a.idx < b.idx
  }

  /** `a > b`: `a` lies further on, whatever the containers. */
  predicate Greater<T>(a: Iterator<T>, b: Iterator<T>)
    ensures Greater(a, b) <==> Distance(a, b) > 0
  {
    a.idx > b.idx
  }

  /** `a <= b`, written as `!(a > b)`: `b` lies no position back. */
  predicate LessEq<T>(a: Iterator<T>, b: Iterator<T>)
    ensures LessEq(a, b) <==> Distance(b, a) >= 0
  {
    !Greater(a, b)
  }

  /** `a >= b`, written as `!(a < b)`: `a` lies no position back. */
  predicate GreaterEq<T>(a: Iterator<T>, b: Iterator<T>)
    ensures GreaterEq(a, b) <==> Distance(a, b) >= 0
  {
    !Less(a, b)
  }

  /** The iterator points at a slot whose page exists. */
  ghost predicate Dereferenceable<T>(it: Iterator<T>)
    reads it.owner, it.owner.Repr
  {
    it.owner.Valid() && it.idx >= 0 && it.owner.Addressable(it.idx)
  }

  /** `*it` (and the element `it->` reaches): the owner's slot at the position. */
  function Deref<T>(it: Iterator<T>): (x: T)
    reads it.owner, it.owner.Repr
    requires Dereferenceable(it)
    ensures it.idx < |it.owner.Contents| ==> x == it.owner.Contents[it.idx]
  {
    it.owner.Get(it.idx)
  }

  /**
   * `it[k]` as written: the offset position is computed but the slot at the
   * iterator's own position is returned.
   */
  function Subscript<T>(it: Iterator<T>, k: int): (x: T)
    reads it.owner, it.owner.Repr
    requires Dereferenceable(it)
    ensures x == Deref(it)
  {
    it.owner.Get(it.idx)
  }

  /** `it[k]` as a random-access iterator defines it: the slot `k` positions on. */
  function SubscriptAt<T>(it: Iterator<T>, k: int): (x: T)
    reads it.owner, it.owner.Repr
    requires Dereferenceable(Advance(it, k))
    ensures x == Deref(Advance(it, k))
    ensures 0 <= it.idx + k < |it.owner.Contents| ==> x == it.owner.Contents[it.idx + k]
  {
    it.owner.Get(it.idx + k)
  }

  /**
   * The elements met while stepping from `first` with `++` until the
   * iterator equals `last`, as a loop `for (it = first; it != last; ++it)`
   * meets them.
   */
  function Walk<T>(first: Iterator<T>, last: Iterator<T>): (s: seq<T>)
    reads first.owner, first.owner.Repr
    requires first.owner == last.owner && first.owner.Valid()
    requires 0 <= first.idx <= last.idx <= first.owner.lastIndex
    ensures |s| == Distance(last, first)
    decreases last.idx - first.idx
  {
    if Equal(first, last) then []
    else [Deref(first)] + Walk(Inc(first), last)
  }

  /** Walking between two positions meets exactly the elements between them, in index order. */
  lemma {:induction false} WalkIsSlice<T>(first: Iterator<T>, last: Iterator<T>)
    requires first.owner == last.owner && first.owner.Valid()
    requires 0 <= first.idx <= last.idx <= first.owner.lastIndex
    ensures Walk(first, last) == first.owner.Contents[first.idx..last.idx]
    decreases last.idx - first.idx
  {
    if first.idx < last.idx {
      WalkIsSlice(Inc(first), last);
    }
  }

  /**
   * Iterating from `begin()` to `end()` meets `size()` elements, the
   * elements of the container in index order.
   */
  lemma BeginToEndIsContents<T>(v: PagedVector<T>)
    requires v.Valid()
    ensures Distance(End(v), Begin(v)) == v.Size()
    ensures Walk(Begin(v), End(v)) == v.Contents
  {
    WalkIsSlice(Begin(v), End(v));
  }

  /** `begin() + k` dereferences to element `k`, as `(*v)[k]` does. */
  lemma DerefAgreesWithIndex<T>(v: PagedVector<T>, k: nat)
    requires v.Valid() && k < v.Size()
    ensures Dereferenceable(Advance(Begin(v), k))
    ensures Deref(Advance(Begin(v), k)) == v.Get(k) == v.Contents[k]
  {
  }

  /** `++` and `--` undo each other; the post forms return the original and step by one. */
  lemma IncDecInverse<T>(it: Iterator<T>)
    ensures Dec(Inc(it)) == it && Inc(Dec(it)) == it
    ensures PostInc(it) == (it, Advance(it, 1))
    ensures PostDec(it) == (it, Retreat(it, 1))
  {
  }

  /** `+ k` and `- k` undo each other, and the distance moved is `k`. */
  lemma AdvanceRetreatInverse<T>(it: Iterator<T>, k: int)
    ensures Retreat(Advance(it, k), k) == it
    ensures Advance(it, k) == Retreat(it, -k)
    ensures Distance(Advance(it, k), it) == k
  {
  }

  /**
   * The orderings compare positions only: exactly one of `<`, `>` and "same
   * position" holds, and `<=`, `>=` are their complements.
   */
  lemma OrderingByPosition<T>(a: Iterator<T>, b: Iterator<T>)
    ensures LessEq(a, b) <==> a.idx <= b.idx
    ensures GreaterEq(a, b) <==> a.idx >= b.idx
    ensures (Less(a, b) <==> Greater(b, a)) && !(Less(a, b) && Greater(a, b))
    ensures Less(a, b) || Greater(a, b) || a.idx == b.idx
    ensures Equal(a, b) ==> LessEq(a, b) && GreaterEq(a, b)
  {
  }

  /**
   * Equality also compares the owner, the orderings do not: two iterators at
   * the same position of different containers are `<=` and `>=` each other
   * yet not `==`.
   */
  lemma EqualityNeedsSameOwner<T>(a: Iterator<T>, b: Iterator<T>)
    requires a.idx == b.idx && a.owner != b.owner
    ensures LessEq(a, b) && GreaterEq(a, b)
    ensures NotEqual(a, b)
  {
  }

  /**
   * The as-written `it[k]` ignores `k`: on a container whose first two
   * elements differ, `begin()[1]` yields element 0, not element 1.
   */
  lemma SubscriptIgnoresOffset<T>(v: PagedVector<T>)
    requires v.Valid() && v.Size() >= 2 && v.Contents[0] != v.Contents[1]
    ensures Dereferenceable(Begin(v))
    ensures Subscript(Begin(v), 1) == v.Contents[0]
    ensures Subscript(Begin(v), 1) != SubscriptAt(Begin(v), 1)
  {
  }
}
