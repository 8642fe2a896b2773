/** Offset pagination: the page count arithmetic, the LINQ operators the
    page slice is built from, the paging header record and the paged list
    with its navigation members. */
module Paging {
  import opened Int32

  function Min(a: int, b: int): int { if a <= b then a else b }
  function Max(a: int, b: int): int { if a <= b then b else a }

  // ---------------------------------------------------------------------
  // Page count arithmetic
  // ---------------------------------------------------------------------

  /** The ceiling of the rational a / b, which is what
      `(int)Math.Ceiling(a / (double)b)` computes for 32-bit operands:
      the double quotient is within a / 2^53 of a / b, while a non-integral
      a / b is at least 1 / |b| from any integer, so rounding never moves
      the ceiling. */
  function CeilDiv(a: nat, b: int): (r: int)
    requires b != 0
    ensures b > 0 ==> (r - 1) * b < a <= r * b && 0 <= r <= a
    ensures b < 0 ==> r * b <= a < (r - 1) * b && 0 <= r + a && r <= 0
  {
    if b > 0 then
      CeilingQuotientBounds(a, b);
      (a + b - 1) / b
    else
      NegatedFloorQuotientBounds(a, b);
      -(a / -b)
  }

  lemma MulMonotone(a: nat, b: int, c: int)
    requires b <= c
    ensures a * b <= a * c
  {
    assert a * c - a * b == a * (c - b);
  }

  lemma MulAtLeastSelf(x: nat, d: int)
    requires d >= 1
    ensures x <= x * d
  {
    assert x * d - x == x * (d - 1);
  }

  lemma DivBounds(n: int, d: int)
    requires d > 0
    ensures (n / d) * d <= n < (n / d) * d + d
  {
    assert n == d * (n / d) + n % d;
  }

  /** For a positive divisor d, (a + d - 1) / d is the ceiling of a / d. */
  lemma CeilingQuotientBounds(a: nat, d: int)
    requires d > 0
    ensures var q := (a + d - 1) / d; (q - 1) * d < a <= q * d && 0 <= q <= a
  {
    var q := (a + d - 1) / d;
    DivBounds(a + d - 1, d);
    assert (q - 1) * d == q * d - d;
    if q >= 1 {
      MulAtLeastSelf(q - 1, d);
    }
  }

  /** For a positive divisor d, a / d is the floor of a / d. */
  lemma FloorQuotientBounds(a: nat, d: int)
    requires d > 0
    ensures var f := a / d; f * d <= a < f * d + d && 0 <= f <= a
  {
    var f := a / d;
    DivBounds(a, d);
    MulAtLeastSelf(f, d);
  }

  /** For a negative divisor b, -(a / -b) is the ceiling of a / b. */
  lemma NegatedFloorQuotientBounds(a: nat, b: int)
    requires b < 0
    ensures var r := -(a / -b); r * b <= a < (r - 1) * b && 0 <= r + a && r <= 0
  {
    var d := -b;
    var f := a / d;
    FloorQuotientBounds(a, d);
    assert (-f) * b == f * d;
    assert (-f - 1) * b == f * d + d;
  }

  /** x * b < y * b with b positive gives x < y. */
  lemma MulCancelLess(x: int, y: int, b: int)
    requires b > 0 && x * b < y * b
    ensures x < y
  {
    assert (y - x) * b == y * b - x * b;
  }

  /** The bounds of CeilDiv pin the page count down: for a positive page
      size, the only k with (k - 1) * b < a <= k * b is the ceiling. */
  lemma {:induction false} CeilDivUnique(a: nat, b: int, k: int)
    requires b > 0
    requires (k - 1) * b < a <= k * b
    ensures k == CeilDiv(a, b)
  {
    var r := CeilDiv(a, b);
    MulCancelLess(k - 1, r, b);
    MulCancelLess(r - 1, k, b);
  }

  // ---------------------------------------------------------------------
  // Enumerable.Skip and Enumerable.Take
  // ---------------------------------------------------------------------

  /** `Skip(count)`: drops the first `count` elements; a count of zero or
      less drops none, a count past the end drops all. */
  function Skip<T>(s: seq<T>, count: int): (r: seq<T>)
    ensures |r| == |s| - Min(Max(count, 0), |s|)
    ensures r == s[|s| - |r|..]
  {
    if count <= 0 then s else if count >= |s| then [] else s[count..]
  }

  /** `Take(count)`: keeps the first `count` elements; a count of zero or
      less keeps none, a count past the end keeps all. */
  function Take<T>(s: seq<T>, count: int): (r: seq<T>)
    ensures |r| == Min(Max(count, 0), |s|)
    ensures r == s[..|r|]
  {
    if count <= 0 then [] else if count >= |s| then s else s[..count]
  }

  // ---------------------------------------------------------------------
  // PagingHeader
  // ---------------------------------------------------------------------

  /** The four get-only properties of a paging header, in constructor
      argument order. The constructor checks nothing. */
  datatype PagingHeader = PagingHeader(TotalItems: int32, PageNumber: int32, PageSize: int32, TotalPages: int32)
  {
    /** The page count agrees with the item count and the page size. */
    predicate Consistent() {
      TotalItems >= 0 && PageSize > 0 && TotalPages == CeilDiv(TotalItems, PageSize)
    }
  }

  /** Nothing stops a header from carrying a page count that does not
      follow from its item count and page size. */
  lemma HeaderAcceptsInconsistentPageCount()
    ensures exists h: PagingHeader :: h.PageSize > 0 && !h.Consistent()
  {
    var h := PagingHeader(10, 1, 5, 7);
    assert CeilDiv(10, 5) == 2;
    assert !h.Consistent();
  }

  /** A header's properties are exactly its constructor arguments, and two
      headers are equal only when all four properties are. */
  lemma HeaderKeepsItsArguments(totalItems: int32, pageNumber: int32, pageSize: int32, totalPages: int32, other: PagingHeader)
    ensures var h := PagingHeader(totalItems, pageNumber, pageSize, totalPages);
            && h.TotalItems == totalItems && h.PageNumber == pageNumber
            && h.PageSize == pageSize && h.TotalPages == totalPages
            && (other == h <==> other.TotalItems == totalItems && other.PageNumber == pageNumber
                                && other.PageSize == pageSize && other.TotalPages == totalPages)
  {
  }

  // ---------------------------------------------------------------------
  // PagedList
  // ---------------------------------------------------------------------

  /** The skip count of page `pageNumber` is positive exactly when the page
      number is above 1. */
  lemma SkipCountPositive(pageSize: int, pageNumber: int)
    ensures pageSize > 0 ==> (pageNumber > 1 <==> pageSize * (pageNumber - 1) > 0)
  {
    if pageSize > 0 {
      if pageNumber > 1 {
        MulAtLeastSelf(pageSize, pageNumber - 1);
      } else {
        MulMonotone(pageSize, pageNumber - 1, 0);
      }
    }
  }

  /** With `pages` the ceiling of `items / size`, a page number is below the
      page count exactly when items remain after that many full pages. */
  lemma ItemsBeyondPage(items: nat, size: int, pageNumber: int, pages: int)
    requires size > 0 && (pages - 1) * size < items <= pages * size
    ensures pageNumber < pages <==> size * pageNumber < items
  {
    if pageNumber < pages {
      MulMonotone(size, pageNumber, pages - 1);
      assert (pages - 1) * size == size * (pages - 1);
    } else {
      MulMonotone(size, pages, pageNumber);
      assert pages * size == size * pages;
    }
  }

  /** A page of `List` cut from a source of `TotalItems` elements, with the
      requested page number and size kept as given. */
  datatype PagedList<T> = PagedList(TotalItems: nat32, PageNumber: int32, PageSize: int32, List: seq<T>)
  {
    /** Number of pages of `PageSize` needed for `TotalItems` elements. */
    function TotalPages(): (r: int32)
      requires PageSize != 0
      ensures PageSize > 0 ==> (r - 1) * PageSize < TotalItems <= r * PageSize
      ensures PageSize > 0 ==> 0 <= r <= TotalItems && (r == 0 <==> TotalItems == 0)
      ensures PageSize < 0 ==> r <= 0
    {
      CeilDiv(TotalItems, PageSize)
    }

    /** Some page comes before this one: for a positive size, this page
        does not start at the first element. */
    function HasPreviousPage(): (b: bool)
      ensures PageSize > 0 ==> (b <==> PageSize * (PageNumber - 1) > 0)
    {
      SkipCountPositive(PageSize, PageNumber);
      PageNumber > 1
    }

    /** Some page comes after this one: for a positive size, elements remain
        after the first `PageNumber` pages. */
    function HasNextPage(): (b: bool)
      requires PageSize != 0
      ensures PageSize > 0 ==> (b <==> PageSize * PageNumber < TotalItems)
    {
      if PageSize > 0 then ItemsBeyondPage(TotalItems, PageSize, PageNumber, TotalPages()); PageNumber < TotalPages()
      else PageNumber < TotalPages()
    }

    /** The page after this one, or the last page when there is none. */
    function NextPageNumber(): (r: int32)
      requires PageSize != 0
      ensures r <= TotalPages()
      ensures r == PageNumber + 1 <==> HasNextPage()
      ensures r > PageNumber <==> HasNextPage()
      ensures !HasNextPage() ==> r == TotalPages()
    {
      if HasNextPage() then PageNumber + 1 else TotalPages()
    }

    /** The page before this one, or the first page when there is none. */
    function PreviousPageNumber(): (r: int32)
      ensures r >= 1
      ensures r == PageNumber - 1 <==> HasPreviousPage()
      ensures r < PageNumber <==> HasPreviousPage()
      ensures !HasPreviousPage() ==> r == 1
    {
      if HasPreviousPage() then PageNumber - 1 else 1
    }

    /** The header that describes this page. */
    function GetHeader(): (h: PagingHeader)
      requires PageSize != 0
      ensures h.TotalItems == TotalItems && h.PageNumber == PageNumber
      ensures h.PageSize == PageSize && h.TotalPages == TotalPages()
      ensures PageSize > 0 ==> h.Consistent()
    {
      PagingHeader(TotalItems, PageNumber, PageSize, TotalPages())
    }
  }

  /** The `PagedList` constructor as written: the number of elements to
      skip, `pageSize * (pageNumber - 1)`, is computed in unchecked 32-bit
      arithmetic and wraps on overflow. */
  function NewPagedList<T>(source: seq<T>, pageNumber: int32, pageSize: int32): (p: PagedList<T>)
    requires |source| <= MAX
    ensures p.TotalItems == |source| && p.PageNumber == pageNumber && p.PageSize == pageSize
    ensures |p.List| <= Max(pageSize, 0)
  {
    PagedList(|source|, pageNumber, pageSize,
              Take(Skip(source, Wrap(pageSize * (pageNumber - 1))), pageSize))
  }

  /** The constructor with the skip count computed exactly, so that a page
      far past the end is empty instead of wrapping back into the source. */
  function NewPagedListWide<T>(source: seq<T>, pageNumber: int32, pageSize: int32): (p: PagedList<T>)
    requires |source| <= MAX
    ensures p.TotalItems == |source| && p.PageNumber == pageNumber && p.PageSize == pageSize
    ensures |p.List| <= Max(pageSize, 0)
  {
    PagedList(|source|, pageNumber, pageSize,
              Take(Skip(source, pageSize * (pageNumber - 1)), pageSize))
  }

  /** Whenever the skip count fits in 32 bits the two constructors agree. */
  lemma NewPagedListAgreesWithoutOverflow<T>(source: seq<T>, pageNumber: int32, pageSize: int32)
    requires |source| <= MAX
    requires InRange(pageSize * (pageNumber - 1))
    ensures NewPagedList(source, pageNumber, pageSize) == NewPagedListWide(source, pageNumber, pageSize)
  {
  }

  /** With ten elements, pages of five and page number 0x3333_3335, the
      skip count 5 * 0x3333_3334 = 2^32 + 4 wraps to 4: the page lies far
      beyond the two pages there are, yet the constructor as written
      returns five elements from the middle of the source. */
  lemma OverflowedSkipReturnsMiddleOfSource()
    ensures var p := NewPagedList([0, 1, 2, 3, 4, 5, 6, 7, 8, 9], 0x3333_3335, 5);
            p.PageNumber > p.TotalPages() && p.List == [4, 5, 6, 7, 8]
  {
    var source := [0, 1, 2, 3, 4, 5, 6, 7, 8, 9];
    assert 5 * (0x3333_3335 - 1) == MODULUS + 4;
    assert Wrap(MODULUS + 4) == 4;
    assert CeilDiv(10, 5) == 2;
    assert Take(Skip(source, 4), 5) == [4, 5, 6, 7, 8];
  }

  /** A page is the stretch of the source from `pageSize * (pageNumber - 1)`
      up to `pageSize * pageNumber`, clipped to the source. */
  lemma {:induction false} PageIsSlice<T>(source: seq<T>, pageNumber: int32, pageSize: int32)
    requires |source| <= MAX && pageNumber >= 1 && pageSize >= 1
    ensures var lo := pageSize * (pageNumber - 1);
            && 0 <= lo
            && NewPagedListWide(source, pageNumber, pageSize).List
                 == source[Min(lo, |source|)..Min(lo + pageSize, |source|)]
  {
    var lo := pageSize * (pageNumber - 1);
    MulMonotone(pageSize, 0, pageNumber - 1);
    TakeOfSkip(source, lo, pageSize);
  }

  /** Skipping `lo` and taking `size` cuts out `s[lo..lo + size]`, clipped. */
  lemma TakeOfSkip<T>(s: seq<T>, lo: nat, size: nat)
    ensures Take(Skip(s, lo), size) == s[Min(lo, |s|)..Min(lo + size, |s|)]
  {
    var m := Min(lo, |s|);
    assert Skip(s, lo) == s[m..];
  }

  /** The number of elements on a page. */
  lemma {:induction false} PageLength<T>(source: seq<T>, pageNumber: int32, pageSize: int32)
    requires |source| <= MAX && pageNumber >= 1 && pageSize >= 1
    ensures |NewPagedListWide(source, pageNumber, pageSize).List|
              == Max(0, Min(pageSize, |source| - pageSize * (pageNumber - 1)))
  {
    PageIsSlice(source, pageNumber, pageSize);
  }

  /** Every page before the last is full, the last holds the remainder,
      and a page past the last is empty and has no next page. */
  lemma {:induction false} PageOccupancy<T>(source: seq<T>, pageNumber: int32, pageSize: int32)
    requires |source| <= MAX && pageNumber >= 1 && pageSize >= 1
    ensures var p := NewPagedListWide(source, pageNumber, pageSize);
            && (pageNumber < p.TotalPages() ==> |p.List| == pageSize)
            && (pageNumber == p.TotalPages() ==>
                  |p.List| == |source| - pageSize * (p.TotalPages() - 1) > 0)
            && (pageNumber > p.TotalPages() ==> p.List == [] && !p.HasNextPage())
  {
    var p := NewPagedListWide(source, pageNumber, pageSize);
    var n := p.TotalPages();
    PageLength(source, pageNumber, pageSize);
    if pageNumber < n {
      MulMonotone(pageSize, pageNumber, n - 1);
      assert pageSize * (pageNumber - 1) + pageSize == pageSize * pageNumber;
    } else if pageNumber > n {
      MulMonotone(pageSize, n, pageNumber - 1);
      assert pageSize * n == n * pageSize;
    } else {
      assert pageSize * (n - 1) == (n - 1) * pageSize;
    }
  }

  /** The concatenation of pages 1 to k at a fixed page size. */
  function PagesUpTo<T>(source: seq<T>, pageSize: int32, k: nat): seq<T>
    requires |source| <= MAX && pageSize >= 1 && k <= MAX
  {
    if k == 0 then [] else PagesUpTo(source, pageSize, k - 1) + NewPagedListWide(source, k as int32, pageSize).List
  }

  /** The first k pages together are the first k * pageSize elements. */
  lemma {:induction false} PagesUpToIsPrefix<T>(source: seq<T>, pageSize: int32, k: nat)
    requires |source| <= MAX && pageSize >= 1 && k <= MAX
    ensures 0 <= pageSize * k && PagesUpTo(source, pageSize, k) == source[..Min(pageSize * k, |source|)]
  {
    if k > 0 {
      PagesUpToIsPrefix(source, pageSize, k - 1);
      PagesUpToStep(source, pageSize, k);
    }
  }

  /** Appending page k to the first k - 1 pages extends the prefix by one
      page. */
  lemma PagesUpToStep<T>(source: seq<T>, pageSize: int32, k: nat)
    requires |source| <= MAX && pageSize >= 1 && 1 <= k <= MAX
    requires 0 <= pageSize * (k - 1)
    requires PagesUpTo(source, pageSize, k - 1) == source[..Min(pageSize * (k - 1), |source|)]
    ensures 0 <= pageSize * k && PagesUpTo(source, pageSize, k) == source[..Min(pageSize * k, |source|)]
  {
    ConsecutiveOffsets(pageSize, k);
    PageIsSlice(source, k as int32, pageSize);
    PrefixThenSlice(source, PagesUpTo(source, pageSize, k - 1), NewPagedListWide(source, k as int32, pageSize).List,
                    pageSize * (k - 1), pageSize, pageSize * k);
  }

  /** A prefix followed by the slice that starts where it ends is a longer
      prefix. */
  lemma PrefixThenSlice<T>(s: seq<T>, prefix: seq<T>, slice: seq<T>, lo: nat, size: nat, hi: nat)
    requires hi == lo + size
    requires prefix == s[..Min(lo, |s|)] && slice == s[Min(lo, |s|)..Min(hi, |s|)]
    ensures prefix + slice == s[..Min(hi, |s|)]
  {
  }

  /** Page k starts where page k - 1 ends. */
  lemma ConsecutiveOffsets(pageSize: nat, k: int)
    requires k >= 1
    ensures 0 <= pageSize * (k - 1) && pageSize * (k - 1) + pageSize == pageSize * k
  {
    MulMonotone(pageSize, 0, k - 1);
  }

  /** Reading pages 1 to TotalPages in order reproduces the source. */
  lemma {:induction false} PagesPartitionSource<T>(source: seq<T>, pageSize: int32)
    requires |source| <= MAX && pageSize >= 1
    ensures var n := NewPagedListWide(source, 1, pageSize).TotalPages();
            PagesUpTo(source, pageSize, n) == source
  {
    var n := NewPagedListWide(source, 1, pageSize).TotalPages();
    PagesUpToIsPrefix(source, pageSize, n);
    assert pageSize * n == n * pageSize;
  }

  /** 23 items in pages of 5: page 5 is the last page and holds 3 items. */
  lemma LastOfFivePages<T>(source: seq<T>)
    requires |source| == 23
    ensures var p := NewPagedListWide(source, 5, 5);
            && |p.List| == 3 && p.TotalPages() == 5
            && !p.HasNextPage() && p.HasPreviousPage()
  {
    PageLength(source, 5, 5);
    CeilDivUnique(23, 5, 5);
  }

  /** An empty source has no pages, and its first page is empty. */
  lemma EmptySourceFirstPage<T>(source: seq<T>)
    requires |source| == 0
    ensures var p := NewPagedListWide(source, 1, 10);
            && p.List == [] && p.TotalPages() == 0
            && !p.HasPreviousPage() && !p.HasNextPage()
  {
  }
}
