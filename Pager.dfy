/** Page arithmetic of the next-page and previous-page handlers. The page
    number lives in the "offset" field; the SQL offset is derived from it and
    the limit, both read as Go ints. */
module Pager {
  import opened GoInt

  /** The page after "next": one more, in Go int arithmetic. */
  function NextPageOf(page: int): (r: int)
    ensures IsInt(r)
    ensures IsInt(page) && page < MaxInt ==> r == page + 1
  {
    Add(page, 1)
  }

  /** The page after "previous": one less, but only from a page above 1. */
  function PrevPageOf(page: int): (r: int)
    ensures r == page - 1 || r == page
    ensures page >= 1 ==> r >= 1
  {
    if page > 1 then page - 1 else page
  }

  /** The number of rows in front of `page` (pages counted from 1), as a Go int. */
  function OffsetOf(limit: int, page: int): (r: int)
    ensures IsInt(r)
    ensures IsInt(limit * (page - 1)) ==> r == limit * (page - 1)
    ensures page == 1 ==> r == 0
  {
    Wrap(limit * (page - 1))
  }

  /** The two paging keys. */
  datatype PageKey = NextKey | PrevKey

  /** The page after pressing `keys` in order, starting from `page`. */
  function Run(page: int, keys: seq<PageKey>): int
    decreases |keys|
  {
    if keys == [] then page
    else
      var before := Run(page, keys[..|keys| - 1]);
      if keys[|keys| - 1] == NextKey then NextPageOf(before) else PrevPageOf(before)
  }

  /** `page` after n presses of "next". */
  function Forward(page: int, n: nat): int {
    if n == 0 then page else NextPageOf(Forward(page, n - 1))
  }

  /** What the handlers compute, `limit*page - limit` with both operations
      wrapping, is the number of rows in front of the page. */
  lemma GoOffsetIsOffset(limit: int, page: int)
    ensures Sub(Mul(limit, page), limit) == OffsetOf(limit, page)
  {
    SubOfMul(limit, page, limit);
    assert limit * page - limit == limit * (page - 1);
  }

  /** Without overflow the offset is exactly limit*(page-1); page 1 starts at row 0. */
  lemma OffsetExact(limit: int, page: int)
    requires IsInt(limit * (page - 1))
    ensures OffsetOf(limit, page) == limit * (page - 1)
    ensures OffsetOf(limit, 1) == 0
  {
  }

  /** "Previous" never lowers a page of 1 or more below 1, and it lowers the
      page exactly when the page is above 1. */
  lemma PrevFloor(page: int)
    ensures page >= 1 ==> PrevPageOf(page) >= 1
    ensures PrevPageOf(page) <= page
    ensures PrevPageOf(page) < page <==> page > 1
  {
  }

  /** "Previous" undoes "next" exactly for the pages of 1 or more. */
  lemma PrevUndoesNext(page: int)
    requires IsInt(page) && page < MaxInt
    ensures PrevPageOf(NextPageOf(page)) == page <==> page >= 1
  {
  }

  /** "Next" undoes "previous" exactly for the pages above 1. */
  lemma NextUndoesPrev(page: int)
    requires IsInt(page)
    ensures NextPageOf(PrevPageOf(page)) == page <==> page > 1
  {
  }

  /** "Next" on the largest Go int wraps to the smallest one. */
  lemma NextWrapsAtMax()
    ensures NextPageOf(MaxInt) == MinInt
  {
  }

  /** n presses of "next" from `page` land on page + n, and from page 1 the
      offset is then n full pages of rows. */
  lemma {:induction false} ForwardCount(page: int, n: nat, limit: int)
    requires IsInt(page) && page + n <= MaxInt
    ensures Forward(page, n) == page + n
    ensures page == 1 && IsInt(limit * n) ==> OffsetOf(limit, Forward(page, n)) == limit * n
  {
    if n > 0 {
      ForwardCount(page, n - 1, limit);
    }
    if page == 1 && IsInt(limit * n) {
      assert limit * (Forward(page, n) - 1) == limit * n;
    }
  }

  /** The paging keys alone, pressed from the start-up page 1, keep the page
      between 1 and one more than the number of presses; only more than 2^63
      presses could reach the wrap at the largest Go int. */
  lemma {:induction false} RunFromStartStaysPositive(keys: seq<PageKey>)
    requires |keys| < MaxInt
    ensures 1 <= Run(1, keys) <= 1 + |keys|
    decreases |keys|
  {
    if keys != [] {
      RunFromStartStaysPositive(keys[..|keys| - 1]);
    }
  }
}
