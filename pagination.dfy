/** SORT's `LIMIT offset count` and the page arithmetic built on it. */
module Pagination {
  function Min(a: int, b: int): int {
    if a <= b then a else b
  }

  /** The offset of a 1-based page: `(page - 1) * per_page`. */
  function Offset(page: nat, perPage: nat): nat
    requires page >= 1
  {
    (page - 1) * perPage
  }

  /** Page 1 starts at the beginning, and each page starts where the one before it ends. */
  lemma PagesAdjoin(page: nat, perPage: nat)
    requires page >= 1
    ensures Offset(1, perPage) == 0
    ensures Offset(page + 1, perPage) == Offset(page, perPage) + perPage
  {
    assert page * perPage == (page - 1) * perPage + perPage;
  }

  /** `LIMIT offset count` with `offset >= 0`: at most `count` elements starting at
      `offset`, none when `offset` is past the end. */
  function Limit<T>(xs: seq<T>, offset: nat, count: nat): (r: seq<T>)
    ensures |r| <= count
    ensures |r| == if offset < |xs| then Min(count, |xs| - offset) else 0
    ensures forall i :: 0 <= i < |r| ==> offset + i < |xs| && r[i] == xs[offset + i]
  {
    if offset < |xs| then xs[offset..Min(offset + count, |xs|)] else []
  }

  /** Page `page` of `xs`: the elements from `Offset(page, perPage)` on, at most `perPage` of them. */
  function Page<T>(xs: seq<T>, page: nat, perPage: nat): (r: seq<T>)
    requires page >= 1
    ensures |r| == if Offset(page, perPage) < |xs| then Min(perPage, |xs| - Offset(page, perPage)) else 0
    ensures forall i :: 0 <= i < |r| ==> Offset(page, perPage) + i < |xs| && r[i] == xs[Offset(page, perPage) + i]
  {
    Limit(xs, Offset(page, perPage), perPage)
  }

  /** The number of pages that hold `total` elements: the ceiling of total / perPage. */
  function PageCount(total: nat, perPage: nat): (n: nat)
    requires perPage >= 1
    ensures n * perPage >= total
    ensures n > 0 ==> (n - 1) * perPage < total
  {
    var n := (total + perPage - 1) / perPage;
    assert n * perPage + (total + perPage - 1) % perPage == total + perPage - 1;
    n
  }

  /** Pages 1 to n, one after the other. */
  function Pages<T>(xs: seq<T>, perPage: nat, n: nat): seq<T>
    requires perPage >= 1
  {
    if n == 0 then [] else Pages(xs, perPage, n - 1) + Page(xs, n, perPage)
  }

  /** The first n pages are the first n * perPage elements. */
  lemma {:induction false} PagesArePrefix<T>(xs: seq<T>, perPage: nat, n: nat)
    requires perPage >= 1
    ensures Pages(xs, perPage, n) == xs[..Min(n * perPage, |xs|)]
  {
    if n > 0 {
      PagesArePrefix(xs, perPage, n - 1);
      var lo := (n - 1) * perPage;
      assert n * perPage == lo + perPage;
      if lo < |xs| {
        assert xs[..lo] + xs[lo..Min(lo + perPage, |xs|)] == xs[..Min(lo + perPage, |xs|)];
      }
    }
  }

  /** Reading every page in turn yields every element exactly once, in order. */
  lemma AllPagesYieldAll<T>(xs: seq<T>, perPage: nat)
    requires perPage >= 1
    ensures Pages(xs, perPage, PageCount(|xs|, perPage)) == xs
  {
    PagesArePrefix(xs, perPage, PageCount(|xs|, perPage));
  }

  /** A page past the last one is empty. */
  lemma PageBeyondLastIsEmpty<T>(xs: seq<T>, page: nat, perPage: nat)
    requires perPage >= 1 && page > PageCount(|xs|, perPage)
    ensures Page(xs, page, perPage) == []
  {
    var n := PageCount(|xs|, perPage);
    var extra: nat := page - 1 - n;
    assert (page - 1) * perPage == n * perPage + extra * perPage;
    assert Offset(page, perPage) >= |xs|;
  }
}
