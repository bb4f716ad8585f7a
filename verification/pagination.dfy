/** Page arithmetic of the listing routes: the ceiling division that counts
    pages, the clamp that keeps a requested page in range, and Python's list
    slicing that cuts the page out of the ranked list. */
module Pagination {

  /** `(n + k - 1) // k`: the number of pages of `k` entries needed for `n`
      entries. No page is needed for nothing; otherwise the last page is
      non-empty and holds at most `k` entries. */
  function TotalPages(n: nat, k: nat): (r: nat)
    requires k > 0
    ensures r == 0 <==> n == 0
    ensures n > 0 ==> (r - 1) * k < n <= r * k
  {
    var r := (n + k - 1) / k;
    assert r * k <= n + k - 1 < r * k + k;
    r
  }

  /** `max(1, min(page, total))`: the requested page, pulled into `[1, total]`,
      and page 1 when there are no pages at all. */
  function ClampPage(page: int, total: nat): (r: int)
    ensures 1 <= r
    ensures total >= 1 ==> r <= total
    ensures 1 <= page <= total ==> r == page
    ensures page < 1 ==> r == 1
    ensures page > total ==> r == if total == 0 then 1 else total
  {
    var m := if page < total then page else total;
    if m > 1 then m else 1
  }

  /** Where Python puts a slice bound `i` of a list of length `len`: a negative
      bound counts from the end, and every bound is cut into `[0, len]`. */
  function SliceBound(i: int, len: nat): (r: nat)
    ensures r <= len
    ensures 0 <= i <= len ==> r == i
    ensures i > len ==> r == len
    ensures i < 0 && 0 <= i + len ==> r == i + len
    ensures i + len < 0 ==> r == 0
  {
    if i < 0 then (if i + len < 0 then 0 else i + len)
    else if i < len then i else len
  }

  /** Python's `xs[i:j]`: a contiguous block of `xs`, empty when the bounds cross. */
  function PySlice<T>(xs: seq<T>, i: int, j: int): (r: seq<T>)
    ensures |r| <= |xs|
    ensures var a := SliceBound(i, |xs|); a + |r| <= |xs| && r == xs[a..a + |r|]
    ensures |r| == if SliceBound(i, |xs|) <= SliceBound(j, |xs|) then SliceBound(j, |xs|) - SliceBound(i, |xs|) else 0
  {
    var a := SliceBound(i, |xs|);
    var b := SliceBound(j, |xs|);
    if a <= b then xs[a..b] else []
  }

  /** `xs[(page - 1) * k : (page - 1) * k + k]`: at most `k` entries, whatever
      the page number. */
  function PageSlice<T>(xs: seq<T>, page: int, k: nat): (r: seq<T>)
    ensures |r| <= k
  {
    var start := (page - 1) * k;
    PySlice(xs, start, start + k)
  }

  /** For a page number of at least 1 the page is the block of entries
      `(page - 1) * k` up to `(page - 1) * k + k`, cut at the end of the list. */
  lemma PageSliceBlock<T>(xs: seq<T>, page: int, k: nat)
    requires page >= 1
    ensures
      var s := (page - 1) * k;
      var a := if s < |xs| then s else |xs|;
      var b := if s + k < |xs| then s + k else |xs|;
      a <= b && PageSlice(xs, page, k) == xs[a..b]
  {
    MulMonotone(0, page - 1, k);
    BlockSlice(xs, (page - 1) * k, k);
  }

  /** A page holds only entries of the list. */
  lemma PageSliceMembers<T>(xs: seq<T>, page: int, k: nat)
    ensures forall e :: e in PageSlice(xs, page, k) ==> e in xs
  {
    var r := PageSlice(xs, page, k);
    var a := SliceBound((page - 1) * k, |xs|);
    forall e | e in r ensures e in xs {
      var i :| 0 <= i < |r| && r[i] == e;
      assert xs[a + i] == e;
    }
  }

  /** From a non-negative start, `xs[s : s + k]` is the block from `s` up to
      `s + k`, cut at the end of the list. */
  lemma BlockSlice<T>(xs: seq<T>, s: int, k: nat)
    requires s >= 0
    ensures
      var a := if s < |xs| then s else |xs|;
      var b := if s + k < |xs| then s + k else |xs|;
      a <= b && PySlice(xs, s, s + k) == xs[a..b]
  {
  }

  /** A page chosen by clamping is never empty when the list is not, holds a
      full `k` entries before the last page and the remainder on the last. */
  lemma {:induction false} ClampedPageShape<T>(xs: seq<T>, requested: int, k: nat)
    requires k > 0
    ensures var total := TotalPages(|xs|, k);
      var page := ClampPage(requested, total);
      var r := PageSlice(xs, page, k);
      && (|xs| > 0 ==> 1 <= page <= total && |r| > 0)
      && (page < total ==> |r| == k)
      && (|xs| > 0 && page == total ==> |r| == |xs| - (total - 1) * k)
      && (|xs| == 0 ==> page == 1 && r == [])
  {
    var total := TotalPages(|xs|, k);
    var page := ClampPage(requested, total);
    PageSliceBlock(xs, page, k);
    MulSucc(page - 1, k);
    if |xs| > 0 {
      MulSucc(total - 1, k);
      MulMonotone(page - 1, total - 1, k);
      if page < total {
        MulMonotone(page, total - 1, k);
      }
    }
  }

  lemma DivMod(i: nat, k: nat)
    requires k > 0
    ensures i == (i / k) * k + i % k && 0 <= i % k < k
  {
  }

  lemma MulSucc(q: int, k: nat)
    ensures (q + 1 - 1) * k == q * k && (q + 1) * k == q * k + k
  {
  }

  lemma MulMonotone(a: int, b: int, k: nat)
    requires a <= b
    ensures a * k <= b * k
  {
  }

  /** Every entry lies on a page in range: entry `i` is entry `i % k` of page
      `i / k + 1`. */
  lemma {:induction false} EntryOnPage<T>(xs: seq<T>, k: nat, i: nat)
    requires k > 0
    requires i < |xs|
    ensures 1 <= i / k + 1 <= TotalPages(|xs|, k)
    ensures var r := PageSlice(xs, i / k + 1, k); i % k < |r| && r[i % k] == xs[i]
  {
    DivMod(i, k);
    PageEntry(xs, k, i / k, i % k);
  }

  /** Entry `m` of page `q + 1` is entry `q * k + m` of the list. */
  lemma {:induction false} PageEntry<T>(xs: seq<T>, k: nat, q: nat, m: nat)
    requires m < k
    requires q * k + m < |xs|
    ensures q + 1 <= TotalPages(|xs|, k)
    ensures m < |PageSlice(xs, q + 1, k)| && PageSlice(xs, q + 1, k)[m] == xs[q * k + m]
  {
    var total := TotalPages(|xs|, k);
    if total <= q {
      MulMonotone(total, q, k);
    }
    MulSucc(q, k);
    PageSliceBlock(xs, q + 1, k);
  }

  /** The worked example: 37 entries at 15 per page make 3 pages, the third
      holds 7 entries, and a request for page 4 is served page 3. */
  lemma PaginationExample<T>(xs: seq<T>)
    requires |xs| == 37
    ensures TotalPages(|xs|, 15) == 3
    ensures |PageSlice(xs, 3, 15)| == 7
    ensures ClampPage(4, TotalPages(|xs|, 15)) == 3
  {
    PageSliceBlock(xs, 3, 15);
  }
}
