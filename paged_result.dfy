/** The paged-result value that the listing query returns. */
module PagedResults {
  import opened Jvm

  /** One page of an ordered listing: `content` is the page, `totalElements`
      the number of rows across all pages, `page` the zero-based page index
      and `size` the page size. */
  datatype PagedResult<T> = PagedResult(content: seq<T>, totalElements: Int64, page: Int32, size: Int32)

  /** The `totalPages` getter: 0 for a non-positive page size, otherwise
      `(totalElements + size - 1) / size` in `Long` arithmetic, truncated
      to an `Int`. */
  function TotalPages<T>(r: PagedResult<T>): (n: Int32)
    ensures r.size <= 0 ==> n == 0
  {
    if r.size <= 0 then 0
    else ToInt32(TruncDiv(WrapLong(r.totalElements + r.size - 1), r.size))
  }

  /** With a positive page size and no more rows than `INT_MAX` full pages
      hold (so neither the `Long` sum nor the `Int` conversion wraps),
      `totalPages` is the ceiling of `totalElements / size`: the least
      number of pages of `size` rows that hold every row. */
  lemma TotalPagesIsCeiling<T>(r: PagedResult<T>)
    requires r.size > 0
    requires 0 <= r.totalElements <= INT_MAX * r.size
    ensures var n := TotalPages(r);
      && n >= 0
      && n * r.size >= r.totalElements
      && (n == 0 || (n - 1) * r.size < r.totalElements)
  {
    var te, s := r.totalElements as int, r.size as int;
    var a := te + s - 1;
    assert (INT_MAX + 1) * s <= (INT_MAX + 1) * INT_MAX;
    assert 0 <= a <= LONG_MAX;
    var q := TruncDiv(a, s);
    assert q * s < (INT_MAX + 1) * s;
    QuotientBound(q, INT_MAX + 1, s);
    assert TotalPages(r) == q;
  }

  /** Cancels a positive factor from both sides of `<`. */
  lemma QuotientBound(q: int, m: int, s: int)
    requires s > 0 && q * s < m * s
    ensures q < m
  {
  }

  /** No rows make no pages. */
  lemma NoRowsNoPages<T>(r: PagedResult<T>)
    requires r.size > 0 && r.totalElements == 0
    ensures TotalPages(r) == 0
  {
    assert WrapLong(r.size - 1) == r.size - 1;
    var q := TruncDiv(r.size - 1, r.size);
    if q >= 1 {
      MulMono(1, q, r.size);
    }
  }

  /** 25 rows in pages of 10 make 3 pages. */
  lemma TwentyFiveRowsMakeThreePages<T>(r: PagedResult<T>)
    requires r.size == 10 && r.totalElements == 25
    ensures TotalPages(r) == 3
  {
    TotalPagesIsCeiling(r);
  }

  /** Beyond that bound the `Int` conversion wraps: `INT_MAX + 1` rows in
      pages of one give a negative page count. */
  lemma TotalPagesWrapsPastIntMax<T>(r: PagedResult<T>)
    requires r.size == 1 && r.totalElements == INT_MAX + 1
    ensures TotalPages(r) == INT_MIN
  {
    assert TruncDiv(WrapLong(r.totalElements + r.size - 1), r.size) == INT_MAX + 1;
  }
}
