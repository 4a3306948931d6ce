/** Pagination of the advocates list: six advocates to a page, pages
    numbered from 1. */
module Paging {

  /** ITEMS_PER_PAGE in the page component, itemsPerPage in the route. */
  const PageSize: nat := 6

  function Min(a: int, b: int): int { if a <= b then a else b }
  function Max(a: int, b: int): int { if a >= b then a else b }

  /** How `Array.prototype.slice` reads a bound: a negative one counts back
      from the end, and either kind is clamped to `[0, len]`. */
  function ResolveBound(i: int, len: nat): (r: nat)
    ensures r <= len
    ensures 0 <= i ==> r == Min(i, len)
  {
    if i < 0 then Max(len + i, 0) else Min(i, len)
  }

  /** `s.slice(start, end)` */
  function JsSlice<T>(s: seq<T>, start: int, end: int): (r: seq<T>)
    ensures |r| == Max(0, ResolveBound(end, |s|) - ResolveBound(start, |s|))
    ensures forall i :: 0 <= i < |r| ==> r[i] == s[ResolveBound(start, |s|) + i]
  {
    var from, to := ResolveBound(start, |s|), ResolveBound(end, |s|);
    if from < to then s[from..to] else []
  }

  /** The index of the first advocate on `page`. */
  function PageStart(page: int): int {
    (page - 1) * PageSize
  }

  /** `filteredAdvocates.slice(start, start + ITEMS_PER_PAGE)` with
      `start = (page - 1) * ITEMS_PER_PAGE`: the advocates shown on `page`.
      For a page from 1 on, it is the run of at most six advocates that
      starts at the page's first index, and is empty past the end. */
  function PageSlice<T>(s: seq<T>, page: int): (r: seq<T>)
    ensures page >= 1 ==>
              var from := Min(PageStart(page), |s|);
              r == s[from..Min(PageStart(page) + PageSize, |s|)]
    ensures page >= 1 ==> |r| == Min(PageSize, Max(0, |s| - PageStart(page)))
  {
    JsSlice(s, PageStart(page), PageStart(page) + PageSize)
  }

  /** `Math.ceil(n / ITEMS_PER_PAGE)`: the fewest pages that hold `n`
      advocates. */
  function PageCount(n: nat): (c: nat)
    ensures c * PageSize >= n
    ensures c == 0 || (c - 1) * PageSize < n
  {
    (n + PageSize - 1) / PageSize
  }

  /** The numbers on the page buttons: `idx + 1` for each of the
      `PageCount(n)` buttons. */
  function PageButtons(n: nat): (r: seq<int>)
    ensures |r| == PageCount(n)
    ensures forall i :: 0 <= i < |r| ==> r[i] == i + 1
  {
    seq(PageCount(n), idx requires 0 <= idx => idx + 1)
  }

  /** A page number from 0 on has a button exactly when its page is
      non-empty: every button shows advocates, and no advocate lies on a
      page without a button. */
  lemma ButtonsAreNonEmptyPages<T>(s: seq<T>, num: int)
    requires num >= 0
    ensures num in PageButtons(|s|) <==> PageSlice(s, num) != []
  {
    var c := PageCount(|s|);
    if 1 <= num <= c {
      assert PageButtons(|s|)[num - 1] == num;
    }
  }

  /** Pages 1 to `k` laid end to end. */
  function PagesUpTo<T>(s: seq<T>, k: nat): seq<T> {
    if k == 0 then [] else PagesUpTo(s, k - 1) + PageSlice(s, k)
  }

  /** The first `k` pages are the first `6k` advocates (or all of them). */
  lemma {:induction false} PagesUpToIsPrefix<T>(s: seq<T>, k: nat)
    ensures PagesUpTo(s, k) == s[..Min(k * PageSize, |s|)]
  {
    if k > 0 {
      PagesUpToIsPrefix(s, k - 1);
      var a, b := Min((k - 1) * PageSize, |s|), Min(k * PageSize, |s|);
      assert s[..b] == s[..a] + s[a..b];
    }
  }

  /** The pages that have buttons, read in order, show every advocate of the
      list exactly once and in list order. */
  lemma PagesCoverList<T>(s: seq<T>)
    ensures PagesUpTo(s, PageCount(|s|)) == s
  {
    PagesUpToIsPrefix(s, PageCount(|s|));
  }

  /** Thirteen advocates fill three pages: two full ones and a third
      holding the last advocate alone; a fourth page would be empty. */
  lemma ThirteenAdvocates<T>(s: seq<T>)
    requires |s| == 13
    ensures PageCount(|s|) == 3 && PageButtons(|s|) == [1, 2, 3]
    ensures PageSlice(s, 3) == [s[12]] && PageSlice(s, 4) == []
  {
  }
}
