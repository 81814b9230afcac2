/**
 * Index arithmetic of the paged container: a logical index is split into a
 * page-table slot (`index >> 6`) and an offset within that page
 * (`index & 63`), and a slot count is turned into a page count by ceiling
 * division.
 */
module PageMath {

  /**
   * Slots per page, `1 << 6`: the low 6 bits of an index select the slot
   * within a page, and the mask `PageSize - 1 == 63` extracts them.
   */
  const PageSize: nat := 64

  /**
   * The page-table slot that holds logical index `i` (`i >> 6`): the page
   * whose run of `PageSize` indices contains `i`.
   */
  function PageOf(i: nat): (p: nat)
    ensures p * PageSize <= i < p * PageSize + PageSize
  {
    i / PageSize
  }

  /**
   * The offset of logical index `i` within its page (`i & 63`): how far
   * `i` lies past the first index of its page.
   */
  function OffsetOf(i: nat): (o: nat)
    ensures o < PageSize && PageOf(i) * PageSize + o == i
  {
    i % PageSize
  }

  /**
   * On 64-bit indices the `>> 6` shift and the `& 63` mask split an index
   * into a page part and an offset below the page size that recombine to
   * the index.
   */
  lemma ShiftMaskSplit(b: bv64)
    ensures (b >> 6) * 64 + (b & 63) == b
    ensures (b & 63) < 64
  {
  }

  /** Every (page, offset) pair with an offset inside a page is the split of exactly one index. */
  lemma SplitOfSlot(p: nat, o: nat)
    requires o < PageSize
    ensures PageOf(p * PageSize + o) == p
    ensures OffsetOf(p * PageSize + o) == o
  {
  }

  /** Distinct indices land in distinct slots. */
  lemma SplitInjective(i: nat, j: nat)
    requires i != j
    ensures PageOf(i) != PageOf(j) || OffsetOf(i) != OffsetOf(j)
  {
  }

  /**
   * `page_divide_ceil`: the number of pages needed to hold `n` slots, that is
   * the least `k` with `k * PageSize >= n`.
   */
  function PageDivideCeil(n: nat): (k: nat)
    ensures k * PageSize >= n
    ensures k == 0 || (k - 1) * PageSize < n
  {
    (n + PageSize - 1) / PageSize
  }

  /** No smaller page count than `PageDivideCeil(n)` holds `n` slots. */
  lemma PageDivideCeilIsLeast(n: nat, k: nat)
    requires k * PageSize >= n
    ensures PageDivideCeil(n) <= k
  {
  }

  /** The page of any index below `n` is below the page count of `n`. */
  lemma PageBelowCeil(i: nat, n: nat)
    requires i < n
    ensures PageOf(i) < PageDivideCeil(n)
  {
  }

  /** The pages of a larger slot count cover the whole pages of a smaller one. */
  lemma CeilCoversWholePages(n: nat, m: nat)
    requires m <= n
    ensures PageOf(m) <= PageDivideCeil(n)
    ensures PageDivideCeil(m) <= PageDivideCeil(n)
  {
  }
}
