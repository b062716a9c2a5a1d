/** `pkg/paging/paging.go`: page arithmetic on 64-bit unsigned integers that wrap. */
module Paging {

  const UINT: int := 0x1_0000_0000_0000_0000
  type uint = x: int | 0 <= x < UINT

  // ---------- unsigned arithmetic, as recursions that keep the page proofs linear ----------

  /** Reduction modulo 2^64. */
  function Wrap(x: int): uint
    decreases if x < 0 then UINT - x else x
  {
    if x < 0 then Wrap(x + UINT) else if x >= UINT then Wrap(x - UINT) else x
  }

  /** The product of `count` and `size`. */
  function Times(count: nat, size: nat): nat {
    if count == 0 then 0 else Times(count - 1, size) + size
  }

  /** The integer quotient. */
  function Quotient(x: nat, size: nat): nat
    requires size > 0
  {
    if x < size then 0 else Quotient(x - size, size) + 1
  }

  lemma WrapShift(x: int)
    ensures (x + UINT) % UINT == x % UINT
  {
    assert x + UINT == UINT * (x / UINT + 1) + x % UINT;
  }

  /** `Wrap` is the remainder modulo 2^64, of negative numbers too. */
  lemma {:induction false} WrapIsModulo(x: int)
    ensures Wrap(x) == x % UINT
    decreases if x < 0 then UINT - x else x
  {
    if x < 0 {
      WrapIsModulo(x + UINT);
      WrapShift(x);
    } else if x >= UINT {
      WrapIsModulo(x - UINT);
      WrapShift(x - UINT);
    }
  }

  lemma {:induction false} WrapMultiple(k: nat, r: uint)
    ensures Wrap(UINT * k + r) == r
  {
    if k > 0 {
      WrapMultiple(k - 1, r);
    }
  }

  /** Adding what wraps to zero is what leaves a number unchanged. */
  lemma {:induction false} WrapSum(x: uint, y: nat)
    ensures Wrap(x + y) == x <==> Wrap(y) == 0
  {
    if y >= UINT {
      WrapSum(x, y - UINT);
    }
  }

  lemma {:induction false} TimesIsProduct(count: nat, size: nat)
    ensures Times(count, size) == size * count
  {
    if count > 0 {
      TimesIsProduct(count - 1, size);
      assert size * count == size * (count - 1) + size;
    }
  }

  lemma {:induction false} TimesSplits(a: nat, b: nat, size: nat)
    ensures Times(a + b, size) == Times(a, size) + Times(b, size)
  {
    if b > 0 {
      TimesSplits(a, b - 1, size);
    }
  }

  lemma {:induction false} QuotientBounds(x: nat, size: nat)
    requires size > 0
    ensures Times(Quotient(x, size), size) <= x < Times(Quotient(x, size), size) + size
  {
    if x >= size {
      QuotientBounds(x - size, size);
    }
  }

  lemma {:induction false} QuotientIsDivision(x: nat, size: nat)
    requires size > 0
    ensures Quotient(x, size) == x / size
  {
    QuotientBounds(x, size);
    var q := Quotient(x, size);
    TimesIsProduct(q, size);
    TimesIsProduct(x / size, size);
    assert x == size * (x / size) + x % size;
    OneQuotient(x, size, q, x / size);
  }

  lemma {:induction false} TimesGrows(a: nat, b: nat, size: nat)
    requires a < b
    ensures Times(a, size) + size <= Times(b, size)
  {
    if a + 1 < b {
      TimesGrows(a, b - 1, size);
    }
  }

  lemma OneQuotient(x: int, size: nat, a: nat, b: nat)
    requires size > 0
    requires Times(a, size) <= x < Times(a, size) + size && Times(b, size) <= x < Times(b, size) + size
    ensures a == b
  {
    if a < b {
      TimesGrows(a, b, size);
    } else if b < a {
      TimesGrows(b, a, size);
    }
  }

  // ---------- the package ----------

  datatype Paging = Paging(
    currentPage: uint, pageSize: uint, totalItems: uint, totalPages: uint,
    previousPage: uint, nextPage: uint, offset: uint)

  function MinCurrentPage(currentPage: uint): uint { if currentPage < 1 then 1 else currentPage }

  function MaxCurrentPage(currentPage: uint, totalPages: uint): uint {
    if currentPage > totalPages then totalPages else currentPage
  }

  function MinPageSize(pageSize: uint): uint { if pageSize < 1 then 1 else pageSize }

  /** `pageSize * (currentPage - 1)` */
  function ComputeOffset(currentPage: uint, pageSize: uint): uint {
    Wrap(Times(Wrap(currentPage - 1), pageSize))
  }

  /** `(totalItems + pageSize - 1) / pageSize`, unless one page is enough */
  function ComputeTotalPages(totalItems: uint, pageSize: uint): nat
    requires pageSize > 0
  {
    if totalItems <= pageSize then 1 else Quotient(Wrap(Wrap(totalItems + pageSize) - 1), pageSize)
  }

  lemma {:induction false} QuotientNoLarger(x: nat, size: nat)
    requires size > 0
    ensures Quotient(x, size) <= x
  {
    if x >= size {
      QuotientNoLarger(x - size, size);
    }
  }

  function ComputePreviousPage(currentPage: uint): uint { if currentPage <= 1 then 1 else currentPage - 1 }

  function ComputeNextPage(currentPage: uint, totalPages: uint): uint {
    if currentPage >= totalPages then totalPages else currentPage + 1
  }

  function New(currentPage: uint, pageSize: uint, totalItems: uint): Paging {
    var size := MinPageSize(pageSize);
    QuotientNoLarger(Wrap(Wrap(totalItems + size) - 1), size);
    var totalPages: uint := ComputeTotalPages(totalItems, size);
    var page := MaxCurrentPage(MinCurrentPage(currentPage), totalPages);
    Paging(page, size, totalItems, totalPages, ComputePreviousPage(page), ComputeNextPage(page, totalPages),
           ComputeOffset(page, size))
  }

  function ComputeOffsetAndLimit(currentPage: uint, pageSize: uint): (uint, uint) {
    var page, size := MinCurrentPage(currentPage), MinPageSize(pageSize);
    (ComputeOffset(page, size), size)
  }

  // ---------- when the page count is right ----------

  /** `totalItems + pageSize - 1` is either not computed or fits. */
  predicate Fits(pageSize: uint, totalItems: uint) {
    totalItems <= MinPageSize(pageSize) || totalItems + MinPageSize(pageSize) - 1 < UINT
  }

  /** `pages` pages of `size` items are enough for `total` items, and one fewer is not;
      no items still take one page. */
  predicate JustEnough(pages: nat, size: nat, total: nat) {
    pages >= 1 && total <= Times(pages, size) && (pages == 1 || Times(pages - 1, size) < total)
  }

  lemma TotalPagesRight(size: uint, total: uint)
    requires size > 0 && Fits(size, total)
    ensures JustEnough(ComputeTotalPages(total, size), size, total)
  {
    if total > size {
      QuotientBounds(total + size - 1, size);
      assert Wrap(Wrap(total + size) - 1) == total + size - 1;
    }
    assert Times(1, size) == Times(0, size) + size;
  }

  /** Exactly when `New` counts the pages right: otherwise the sum wraps, the count is
      zero, so is the page, and the offset lies beyond every item. */
  lemma NewRightExactlyWhen(currentPage: uint, pageSize: uint, totalItems: uint)
    ensures var p := New(currentPage, pageSize, totalItems);
      && (Fits(pageSize, totalItems) <==> JustEnough(p.totalPages, p.pageSize, totalItems))
      && (!Fits(pageSize, totalItems) ==>
            p.totalPages == p.currentPage == p.nextPage == 0 && p.offset == UINT - p.pageSize)
  {
    var size := MinPageSize(pageSize);
    if Fits(pageSize, totalItems) {
      TotalPagesRight(size, totalItems);
    } else {
      var x := totalItems + size - 1 - UINT;
      assert Wrap(totalItems + size) == x + 1 && 0 <= x < size;
      assert ComputeTotalPages(totalItems, size) == 0;
      assert Wrap(0 - 1) == UINT - 1;
      TimesIsProduct(UINT - 1, size);
      WrapMultiple(size - 1, UINT - size);
      assert size * (UINT - 1) == UINT * (size - 1) + (UINT - size);
      assert ComputeOffset(0, size) == UINT - size;
    }
  }

  // ---------- the fields of a right page ----------

  /** In range, the offset does not wrap and lies before the last item. */
  lemma OffsetInRange(page: uint, size: uint, total: uint)
    requires size > 0 && Fits(size, total) && 1 <= page <= ComputeTotalPages(total, size)
    ensures ComputeOffset(page, size) == Times(page - 1, size)
    ensures page > 1 ==> ComputeOffset(page, size) < total
  {
    TotalPagesRight(size, total);
    var pages := ComputeTotalPages(total, size);
    TimesSplits(page - 1, pages - page, size);
  }

  /** The current page is the requested one, moved into 1..TotalPages; its neighbours
      stay inside, and its offset is what the pages before it hold. */
  lemma PageInRange(currentPage: uint, pageSize: uint, totalItems: uint)
    requires Fits(pageSize, totalItems)
    ensures var p := New(currentPage, pageSize, totalItems);
      && 1 <= p.currentPage <= p.totalPages
      && 1 <= p.previousPage <= p.currentPage <= p.nextPage <= p.totalPages
      && (1 <= currentPage <= p.totalPages ==> p.currentPage == currentPage)
      && p.offset == Times(p.currentPage - 1, p.pageSize)
      && (p.offset < totalItems || p.offset == 0)
  {
    var size := MinPageSize(pageSize);
    TotalPagesRight(size, totalItems);
    OffsetInRange(New(currentPage, pageSize, totalItems).currentPage, size, totalItems);
  }

  /** Every field of a right page, written out: the size is at least one, the count is the
      quotient rounded up, the requested page is moved into 1..TotalPages, its neighbours are
      one page away where there is one, and the offset is what the earlier pages hold. */
  lemma FieldsOfNew(currentPage: uint, pageSize: uint, totalItems: uint)
    requires Fits(pageSize, totalItems)
    ensures var p := New(currentPage, pageSize, totalItems);
      && p.totalItems == totalItems
      && p.pageSize == (if pageSize == 0 then 1 else pageSize)
      && p.totalPages == (if totalItems == 0 then 1 else (totalItems + p.pageSize - 1) / p.pageSize)
      && p.currentPage == (if currentPage == 0 then 1
                           else if currentPage > p.totalPages then p.totalPages else currentPage)
      && p.previousPage == (if p.currentPage == 1 then 1 else p.currentPage - 1)
      && p.nextPage == (if p.currentPage == p.totalPages then p.totalPages else p.currentPage + 1)
      && p.offset == p.pageSize * (p.currentPage - 1)
  {
    var p := New(currentPage, pageSize, totalItems);
    PageInRange(currentPage, pageSize, totalItems);
    TimesIsProduct(p.currentPage - 1, p.pageSize);
    PageCount(totalItems, p.pageSize);
  }

  lemma PageCount(total: uint, size: uint)
    requires size > 0 && Fits(size, total)
    ensures ComputeTotalPages(total, size) == if total == 0 then 1 else (total + size - 1) / size
  {
    if total > size {
      assert Wrap(Wrap(total + size) - 1) == total + size - 1;
      QuotientIsDivision(total + size - 1, size);
    } else if total > 0 {
      QuotientIsDivision(total + size - 1, size);
      assert Quotient(total - 1, size) == 0;
    }
  }

  /** The SQL offset and limit for all inputs, without any total, as 64-bit numbers. */
  lemma OffsetAndLimitMeaning(currentPage: uint, pageSize: uint)
    ensures var page, size := if currentPage == 0 then 1 else currentPage, if pageSize == 0 then 1 else pageSize;
      ComputeOffsetAndLimit(currentPage, pageSize) == ((size * (page - 1)) % 0x1_0000_0000_0000_0000, size)
  {
    var page, size := if currentPage == 0 then 1 else currentPage, if pageSize == 0 then 1 else pageSize;
    TimesIsProduct(page - 1, size);
    WrapIsModulo(Times(page - 1, size));
  }

  predicate OnPage(item: int, p: Paging) { p.offset <= item < p.offset + p.pageSize }

  /** Every item lies on a page. */
  lemma EveryItemOnAPage(pageSize: uint, totalItems: uint, item: uint) returns (page: uint)
    requires Fits(pageSize, totalItems) && item < totalItems
    ensures 1 <= page <= New(1, pageSize, totalItems).totalPages
    ensures OnPage(item, New(page, pageSize, totalItems))
  {
    var size := MinPageSize(pageSize);
    var pages := ComputeTotalPages(totalItems, size);
    TotalPagesRight(size, totalItems);
    QuotientBounds(item, size);
    QuotientNoLarger(item, size);
    var q := Quotient(item, size);
    if q >= pages {
      TimesSplits(pages, q - pages, size);
    }
    page := q + 1;
    PageInRange(page, pageSize, totalItems);
  }

  /** And on no other: the pages tile the items. */
  lemma OnOnePageOnly(pageSize: uint, totalItems: uint, item: uint, p: uint, q: uint)
    requires Fits(pageSize, totalItems)
    requires 1 <= p <= New(1, pageSize, totalItems).totalPages && 1 <= q <= New(1, pageSize, totalItems).totalPages
    requires OnPage(item, New(p, pageSize, totalItems)) && OnPage(item, New(q, pageSize, totalItems))
    ensures p == q
  {
    PageInRange(p, pageSize, totalItems);
    PageInRange(q, pageSize, totalItems);
    OneQuotient(item, MinPageSize(pageSize), p - 1, q - 1);
  }

  /** Paging information asked for again from its own fields is the same, wrapped or not. */
  lemma NewIdempotent(currentPage: uint, pageSize: uint, totalItems: uint)
    ensures var p := New(currentPage, pageSize, totalItems);
      New(p.currentPage, p.pageSize, p.totalItems) == p
  {
  }

  /** The page reached from the first by following `nextPage` `steps` times. */
  function Follow(pageSize: uint, totalItems: uint, steps: nat): Paging {
    if steps == 0 then New(1, pageSize, totalItems)
    else New(Follow(pageSize, totalItems, steps - 1).nextPage, pageSize, totalItems)
  }

  /** Following `nextPage` visits pages 1, 2, ..., TotalPages in turn, then stays. */
  lemma {:induction false} FollowVisitsEachPage(pageSize: uint, totalItems: uint, steps: nat)
    requires Fits(pageSize, totalItems)
    ensures var p := Follow(pageSize, totalItems, steps);
      && p.totalPages == New(1, pageSize, totalItems).totalPages
      && p.currentPage == (if steps < p.totalPages then steps + 1 else p.totalPages)
      && p.nextPage == (if p.currentPage < p.totalPages then p.currentPage + 1 else p.totalPages)
  {
    PageInRange(1, pageSize, totalItems);
    if steps > 0 {
      FollowVisitsEachPage(pageSize, totalItems, steps - 1);
    }
  }

  /** The page reached from the last one by following `previousPage` `steps` times. */
  function FollowBack(pageSize: uint, totalItems: uint, steps: nat): Paging {
    if steps == 0 then New(New(1, pageSize, totalItems).totalPages, pageSize, totalItems)
    else New(FollowBack(pageSize, totalItems, steps - 1).previousPage, pageSize, totalItems)
  }

  /** Following `previousPage` visits pages TotalPages, ..., 2, 1 in turn, then stays. */
  lemma {:induction false} FollowBackVisitsEachPage(pageSize: uint, totalItems: uint, steps: nat)
    requires Fits(pageSize, totalItems)
    ensures var p := FollowBack(pageSize, totalItems, steps);
      && p.totalPages == New(1, pageSize, totalItems).totalPages
      && p.currentPage == (if steps < p.totalPages then p.totalPages - steps else 1)
      && p.previousPage == (if p.currentPage > 1 then p.currentPage - 1 else 1)
  {
    PageInRange(1, pageSize, totalItems);
    if steps > 0 {
      FollowBackVisitsEachPage(pageSize, totalItems, steps - 1);
    }
  }

  /** Exactly when the SQL offset and limit are those of `New`: the page is in range, or the
      offset beyond the last page happens to wrap back onto it. */
  lemma OffsetAndLimitAgree(currentPage: uint, pageSize: uint, totalItems: uint)
    ensures var p, page := New(currentPage, pageSize, totalItems), MinCurrentPage(currentPage);
      ComputeOffsetAndLimit(currentPage, pageSize) == (p.offset, p.pageSize) <==>
      page <= p.totalPages || Wrap(Times(page - p.totalPages, p.pageSize)) == 0
  {
    var p, page := New(currentPage, pageSize, totalItems), MinCurrentPage(currentPage);
    if page > p.totalPages {
      NewRightExactlyWhen(currentPage, pageSize, totalItems);
      if Fits(pageSize, totalItems) {
        PageInRange(currentPage, pageSize, totalItems);
        TimesSplits(p.totalPages - 1, page - p.totalPages, p.pageSize);
        WrapSum(p.offset, Times(page - p.totalPages, p.pageSize));
      } else {
        WrapsOnto(Times(page - 1, p.pageSize), p.pageSize);
      }
    }
  }

  lemma {:induction false} WrapsOnto(x: nat, size: uint)
    requires size > 0
    ensures Wrap(x) == UINT - size <==> Wrap(x + size) == 0
  {
    if x >= UINT {
      WrapsOnto(x - UINT, size);
    }
  }

  /** When the offset itself does not wrap that is exactly when the page is in range. */
  lemma OffsetAndLimitInRange(currentPage: uint, pageSize: uint, totalItems: uint)
    requires Fits(pageSize, totalItems)
    requires Times(MinCurrentPage(currentPage) - 1, MinPageSize(pageSize)) < UINT
    ensures var p := New(currentPage, pageSize, totalItems);
      ComputeOffsetAndLimit(currentPage, pageSize) == (p.offset, p.pageSize) <==>
      MinCurrentPage(currentPage) <= p.totalPages
  {
    var p := New(currentPage, pageSize, totalItems);
    var page := MinCurrentPage(currentPage);
    OffsetAndLimitAgree(currentPage, pageSize, totalItems);
    PageInRange(currentPage, pageSize, totalItems);
    if page > p.totalPages {
      TimesSplits(p.totalPages - 1, page - p.totalPages, p.pageSize);
      assert 0 < Times(page - p.totalPages, p.pageSize) < UINT;
    }
  }
}
