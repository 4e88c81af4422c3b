/** Paging through the results ten at a time: the offset requested for a
    page, the number of pages a total count makes, and the bounded moves to
    the previous and next page. */
module Pagination {

  /** `itemsPerPage`, fixed for the session. */
  const PageSize: nat := 10

  /** The zero-based offset of the first item of `page` (pages count from 1).
      It is a whole number of pages, and dividing it by the page size gives
      back the page. */
  function StartIndex(page: int): (offset: int)
    ensures page >= 1 ==> offset >= 0 && offset % PageSize == 0 && offset / PageSize + 1 == page
  {
    (page - 1) * PageSize
  }

  /** `Math.ceil(total / itemsPerPage)`: the fewest pages that hold `total`
      items, for any integer `total` (0 for an empty result). */
  function PageCount(total: int): (n: int)
    ensures (n - 1) * PageSize < total <= n * PageSize
    ensures total >= 0 ==> n >= 0
  {
    (total + PageSize - 1) / PageSize
  }

  /** `handlePrevPage`: one page back, unless already on the first. */
  function PrevPage(page: int): (p: int)
    ensures page - 1 <= p <= page
  {
    if page > 1 then page - 1 else page
  }

  /** `handleNextPage`: one page on, unless already on or past the last. */
  function NextPage(page: int, total: int): (p: int)
    ensures page <= p <= page + 1
  {
    if page < PageCount(total) then page + 1 else page
  }

  /** The pages the paginator can show for `total` results: from 1 up to the
      last page, and page 1 when there are no results. */
  predicate InRange(page: int, total: int) {
    1 <= page <= if PageCount(total) > 1 then PageCount(total) else 1
  }

  /** A page in range starts inside the result set whenever there is one. */
  lemma InRangeStartsInside(page: int, total: int)
    requires InRange(page, total) && total > 0
    ensures 0 <= StartIndex(page) < total
  {
  }

  /** Going back moves by exactly one page, only from a page above the first,
      and stays in range. */
  lemma PrevPageBounded(page: int, total: int)
    ensures PrevPage(page) == page - 1 <==> page > 1
    ensures PrevPage(page) != page - 1 ==> PrevPage(page) == page
    ensures InRange(page, total) ==> InRange(PrevPage(page), total)
  {
  }

  /** Going on moves by exactly one page, only from below the last page, and
      stays in range. */
  lemma NextPageBounded(page: int, total: int)
    ensures NextPage(page, total) == page + 1 <==> page < PageCount(total)
    ensures NextPage(page, total) != page + 1 ==> NextPage(page, total) == page
    ensures InRange(page, total) ==> InRange(NextPage(page, total), total)
  {
  }

  datatype Move = Prev | Next

  /** The page reached by pressing the buttons in `moves` in order. */
  function Walk(page: int, total: int, moves: seq<Move>): int
    decreases moves
  {
    if moves == [] then page
    else
      var p := match moves[0] case Prev => PrevPage(page) case Next => NextPage(page, total);
      Walk(p, total, moves[1..])
  }

  /** From any page in range, any sequence of previous/next presses stays in
      range. */
  lemma {:induction false} WalkStaysInRange(page: int, total: int, moves: seq<Move>)
    requires InRange(page, total)
    ensures InRange(Walk(page, total, moves), total)
    decreases moves
  {
    if moves != [] {
      PrevPageBounded(page, total);
      NextPageBounded(page, total);
      var p := match moves[0] case Prev => PrevPage(page) case Next => NextPage(page, total);
      WalkStaysInRange(p, total, moves[1..]);
    }
  }

  /** Every page of the range is reachable from the first page by pressing
      next. */
  lemma {:induction false} NextReachesEveryPage(total: int, page: int)
    requires InRange(page, total)
    ensures Walk(1, total, seq(page - 1, _ => Next)) == page
  {
    if page > 1 {
      NextReachesEveryPage(total, page - 1);
      WalkAppend(1, total, seq(page - 2, _ => Next), [Next]);
      assert seq(page - 2, _ => Next) + [Next] == seq(page - 1, _ => Next);
    }
  }

  /** Pressing `xs` and then `ys` is pressing `xs + ys`. */
  lemma {:induction false} WalkAppend(page: int, total: int, xs: seq<Move>, ys: seq<Move>)
    ensures Walk(page, total, xs + ys) == Walk(Walk(page, total, xs), total, ys)
    decreases xs
  {
    if xs != [] {
      var p := match xs[0] case Prev => PrevPage(page) case Next => NextPage(page, total);
      assert (xs + ys)[1..] == xs[1..] + ys;
      WalkAppend(p, total, xs[1..], ys);
    } else {
      assert xs + ys == ys;
    }
  }
}
