/** Paging of the flat list: the slice shown, the page count in the label, and when the Previous
    and Next controls are enabled (main.py, end of `_draw_page`). */
module Paging {

  /** Items per page. */
  const PageSize: nat := 20

  function Min(a: int, b: int): int {
    if a <= b then a else b
  }

  /** Python's floor division `a // b` for a positive divisor. Dafny's `/` rounds so that the
      remainder is non-negative, which for a positive divisor is rounding toward minus infinity,
      the same as Python. */
  function FloorDiv(a: int, b: int): (q: int)
    requires b > 0
    ensures q * b <= a < q * b + b
  {
    a / b
  }

  /** Index of the first item of a page. */
  function PageStart(page: nat, size: nat): nat {
    page * size
  }

  /** One past the last index of a page, cut at the end of the list. */
  function PageEnd(page: nat, size: nat, total: nat): nat {
    Min(PageStart(page, size) + size, total)
  }

  /** `items[start:end]`: the items of page `page`. Python's slice is empty when the start lies
      at or past the end of the list; before the end, `end` is never below `start`. */
  function PageSlice<T>(items: seq<T>, page: nat, size: nat): (r: seq<T>)
    ensures |r| <= size
    ensures page * size >= |items| ==> r == []
    ensures page * size < |items| ==> |r| == Min(size, |items| - page * size)
  {
    var start := PageStart(page, size);
    if start >= |items| then [] else
      var r := items[start..PageEnd(page, size, |items|)];
      assert |r| == Min(size, |items| - start);
      r
  }

  /** A page is the stretch of the list between two multiples of the page size, both cut at the
      end of the list. */
  lemma PageSliceIsSlice<T>(items: seq<T>, page: nat, size: nat)
    ensures PageSlice(items, page, size) == items[Min(page * size, |items|)..Min(page * size + size, |items|)]
  {
  }

  /** The `i`-th item of a page is the item `i` places after the page's start. */
  lemma PageItem<T>(items: seq<T>, page: nat, size: nat, i: nat)
    requires i < |PageSlice(items, page, size)|
    ensures page * size + i < |items|
    ensures PageSlice(items, page, size)[i] == items[page * size + i]
  {
    PageSliceIsSlice(items, page, size);
  }

  /** The page count in the label, `((total - 1) // size) + 1`: 0 for an empty list, otherwise
      the number of pages needed to hold every item. */
  function PageCount(total: nat, size: nat): (count: int)
    requires size > 0
    ensures count >= 0
    ensures count == 0 <==> total == 0
    ensures total > 0 ==> (count - 1) * size < total <= count * size
  {
    FloorDiv(total - 1, size) + 1
  }

  predicate PrevEnabled(page: nat) {
    page > 0
  }

  predicate NextEnabled(page: nat, size: nat, total: nat) {
    PageEnd(page, size, total) < total
  }

  /** Next is enabled exactly when some later page still holds items, that is when the current
      page is not the last one the label counts. */
  lemma NextEnabledIffLaterPage(page: nat, size: nat, total: nat)
    requires size > 0
    ensures NextEnabled(page, size, total) <==> (page + 1) * size < total
    ensures NextEnabled(page, size, total) <==> page + 1 < PageCount(total, size)
  {
    var count := PageCount(total, size);
    assert (page + 1) * size == page * size + size;
    if total > 0 {
      if page + 1 < count {
        MulMonotone(page + 1, count - 1, size);
      } else {
        MulMonotone(count, page + 1, size);
      }
    }
  }

  /** The pages before page `n`, one after the other. */
  function Joined<T>(items: seq<T>, size: nat, n: nat): seq<T> {
    if n == 0 then [] else Joined(items, size, n - 1) + PageSlice(items, n - 1, size)
  }

  /** The first `n` pages are the first `n * size` items. */
  lemma {:induction false} JoinedIsPrefix<T>(items: seq<T>, size: nat, n: nat)
    ensures Joined(items, size, n) == items[..Min(n * size, |items|)]
  {
    if n > 0 {
      JoinedIsPrefix(items, size, n - 1);
      var a := Min((n - 1) * size, |items|);
      var b := Min(n * size, |items|);
      assert a <= b && b == Min((n - 1) * size + size, |items|) by {
        assert (n - 1) * size + size == n * size;
      }
      PageSliceIsSlice(items, n - 1, size);
      PrefixSplits(items, a, b);
      assert Joined(items, size, n) == Joined(items, size, n - 1) + PageSlice(items, n - 1, size);
    }
  }

  lemma PrefixSplits<T>(items: seq<T>, a: nat, b: nat)
    requires a <= b <= |items|
    ensures items[..b] == items[..a] + items[a..b]
  {
  }

  /** The pages the label counts, put one after the other, give back the whole list. */
  lemma PagesCoverList<T>(items: seq<T>, size: nat)
    requires size > 0
    ensures Joined(items, size, PageCount(|items|, size)) == items
  {
    var count := PageCount(|items|, size);
    JoinedIsPrefix(items, size, count);
    assert Min(count * size, |items|) == |items|;
  }

  /** No page the label counts is empty. */
  lemma CountedPagesAreNonEmpty<T>(items: seq<T>, size: nat, page: nat)
    requires size > 0
    requires page < PageCount(|items|, size)
    ensures PageSlice(items, page, size) != []
  {
    MulMonotone(page, PageCount(|items|, size) - 1, size);
  }

  lemma MulMonotone(a: nat, b: nat, c: nat)
    requires a <= b
    ensures a * c <= b * c
  {
  }
}
