/**
 * The index arithmetic of display_posts (sm.py:59-61, 111): which slice of
 * the listing a page shows and how many pages there are.
 */
module Pagination {

  function Min(a: int, b: int): int {
    if a <= b then a else b
  }

  /**
   * Python's `s[lo:hi]` for non-negative bounds: both bounds are clipped to
   * the length, and a slice whose start is not below its end is empty.
   */
  function Slice<T>(s: seq<T>, lo: nat, hi: nat): seq<T> {
    var a := Min(lo, |s|);
    var b := Min(hi, |s|);
    if a < b then s[a..b] else []
  }

  /** `start_index` (sm.py:59). */
  function StartIndex(page: nat, size: nat): nat {
    page * size
  }

  /** `end_index` (sm.py:60). */
  function EndIndex(page: nat, size: nat, n: nat): nat {
    Min((page + 1) * size, n)
  }

  /**
   * `paginated_posts` (sm.py:61): at most `size` posts; when the page starts
   * inside the list, the posts from its start to its end index.
   */
  function PageOf<T>(posts: seq<T>, page: nat, size: nat): (r: seq<T>)
    ensures |r| <= size
    ensures StartIndex(page, size) < |posts| ==>
      StartIndex(page, size) <= EndIndex(page, size, |posts|) &&
      r == posts[StartIndex(page, size)..EndIndex(page, size, |posts|)]
    ensures StartIndex(page, size) >= |posts| ==> r == []
  {
    assert (page + 1) * size == page * size + size;
    Slice(posts, StartIndex(page, size), EndIndex(page, size, |posts|))
  }

  /**
   * `total_pages` (sm.py:111). Python's `//` rounds down; for a positive
   * divisor Dafny's `/` does the same, also for the -1 of an empty list.
   */
  function TotalPages(n: nat, size: nat): (t: int)
    requires size > 0
    ensures t >= 0
    ensures t == 0 <==> n == 0
    ensures t <= n
  {
    var q := (n - 1) / size;
    if n == 0 then
      assert -1 == q * size + (-1 % size);
      q + 1
    else
      assert n - 1 == q * size + (n - 1) % size;
      MulMonotone(1, size, q);
      q + 1
  }

  /**
   * The page count is the ceiling of n / size: the last page starts below n
   * and the pages reach n. An empty list has no pages.
   */
  lemma TotalPagesIsCeiling(n: nat, size: nat)
    requires size > 0
    ensures n == 0 ==> TotalPages(n, size) == 0
    ensures n >= 1 ==> TotalPages(n, size) >= 1
    ensures n >= 1 ==> (TotalPages(n, size) - 1) * size < n <= TotalPages(n, size) * size
  {
    if n >= 1 {
      var q := (n - 1) / size;
      var r := (n - 1) % size;
      assert n - 1 == q * size + r && 0 <= r < size;
      assert q >= 0;
      assert (q + 1) * size == q * size + size;
    } else {
      assert -1 == (-1 / size) * size + (-1 % size);
      assert -1 / size == -1;
    }
  }

  /** Multiplication by a natural number keeps the order of its factor. */
  lemma MulMonotone(a: nat, b: nat, c: nat)
    requires a <= b
    ensures a * c <= b * c
  {
    assert b * c == a * c + (b - a) * c;
  }

  /** A page holds a post exactly when it starts below the list's length. */
  lemma PageExistsIffStartsInside(n: nat, size: nat, page: nat)
    requires size > 0
    ensures page < TotalPages(n, size) <==> StartIndex(page, size) < n
  {
    TotalPagesIsCeiling(n, size);
    var t := TotalPages(n, size);
    if n >= 1 {
      if page < t {
        MulMonotone(page, t - 1, size);
      } else {
        MulMonotone(t, page, size);
      }
    }
  }

  /**
   * The slice a page shows: at most `size` posts; for a page below the page
   * count it is the posts from `page * size` up to `(page + 1) * size` or
   * the end, and not empty; any later page is empty.
   */
  lemma PageContents<T>(posts: seq<T>, page: nat, size: nat)
    requires size > 0
    ensures |PageOf(posts, page, size)| <= size
    ensures page < TotalPages(|posts|, size) ==>
      && StartIndex(page, size) < EndIndex(page, size, |posts|)
      && PageOf(posts, page, size) == posts[StartIndex(page, size)..EndIndex(page, size, |posts|)]
      && PageOf(posts, page, size) != []
    ensures page >= TotalPages(|posts|, size) ==> PageOf(posts, page, size) == []
  {
    PageExistsIffStartsInside(|posts|, size, page);
    assert (page + 1) * size == page * size + size;
  }

  /**
   * Every index of the list lies on exactly one page below the page count:
   * the page `i / size`.
   */
  lemma IndexOnExactlyOnePage(n: nat, size: nat, i: nat)
    requires size > 0
    requires i < n
    ensures i / size < TotalPages(n, size)
    ensures forall page: nat ::
      StartIndex(page, size) <= i < EndIndex(page, size, n) <==> page == i / size
  {
    var q := i / size;
    assert i == q * size + i % size && 0 <= i % size < size;
    assert (q + 1) * size == q * size + size;
    PageExistsIffStartsInside(n, size, q);
    forall page: nat
      ensures StartIndex(page, size) <= i < EndIndex(page, size, n) <==> page == q
    {
      if page < q {
        MulMonotone(page + 1, q, size);
        assert (page + 1) * size == page * size + size;
      } else if page > q {
        MulMonotone(q + 1, page, size);
      }
    }
  }

  /** The pages from `page` on, one after the other. */
  function PagesFrom<T>(posts: seq<T>, size: nat, page: nat): seq<T>
    requires size > 0
    decreases |posts| - page * size
  {
    if page * size < |posts| then
      assert (page + 1) * size == page * size + size;
      PageOf(posts, page, size) + PagesFrom(posts, size, page + 1)
    else []
  }

  /** From page `page` on, the pages put together are the rest of the list. */
  lemma {:induction false} PagesFromAreSuffix<T>(posts: seq<T>, size: nat, page: nat)
    requires size > 0
    ensures PagesFrom(posts, size, page) == posts[Min(page * size, |posts|)..]
    decreases |posts| - page * size
  {
    assert (page + 1) * size == page * size + size;
    if page * size < |posts| {
      PagesFromAreSuffix(posts, size, page + 1);
      var e := EndIndex(page, size, |posts|);
      assert PageOf(posts, page, size) == posts[page * size..e];
      assert Min((page + 1) * size, |posts|) == e;
      assert posts[page * size..] == posts[page * size..e] + posts[e..];
    }
  }

  /** The pages 0, 1, ... put together give back the whole list, in order. */
  lemma PagesPartitionPosts<T>(posts: seq<T>, size: nat)
    requires size > 0
    ensures PagesFrom(posts, size, 0) == posts
  {
    PagesFromAreSuffix(posts, size, 0);
  }
}
