/**
 * ToPagedResultAsync (count, skip, take) and the TotalPages property of the two paged
 * response shapes.
 */
module Paging {
  import Linq

  function Max(a: int, b: int): int { if a >= b then a else b }
  function Min(a: int, b: int): int { if a <= b then a else b }

  /** Integer ceiling of n / d. */
  function CeilDiv(n: int, d: int): (q: int)
    requires d > 0
    ensures (q - 1) * d < n <= q * d
  {
    var q := (n + d - 1) / d;
    var r := (n + d - 1) % d;
    assert n + d - 1 == q * d + r && 0 <= r < d;
    assert (q - 1) * d == q * d - d;
    q
  }

  lemma MulMonotone(a: int, b: int, d: int)
    requires a <= b && d > 0
    ensures a * d <= b * d
  {
    assert b * d - a * d == (b - a) * d;
  }

  /** The bounds in CeilDiv's contract single out the ceiling: no other integer meets them. */
  lemma CeilDivUnique(n: int, d: int, q: int)
    requires d > 0 && (q - 1) * d < n <= q * d
    ensures q == CeilDiv(n, d)
  {
    var c := CeilDiv(n, d);
    if q < c {
      MulMonotone(q, c - 1, d);
    } else if q > c {
      MulMonotone(c, q - 1, d);
    }
  }

  /** The response of ToPagedResultAsync. */
  datatype PagedResponse<T> = PagedResponse(items: seq<T>, page: int, pageSize: int, totalItems: int)
  {
    /** (int)Math.Ceiling((double)TotalItems / PageSize), exact for 32-bit operands. */
    function TotalPages(): (n: int)
      requires pageSize > 0
      ensures (n - 1) * pageSize < totalItems <= n * pageSize
    {
      CeilDiv(totalItems, pageSize)
    }
  }

  /** The controller's declared response type; its TotalPages is the same computed property. */
  datatype PagedResult<T> = PagedResult(items: seq<T>, page: int, pageSize: int, totalItems: int)
  {
    function TotalPages(): (n: int)
      requires pageSize > 0
      ensures (n - 1) * pageSize < totalItems <= n * pageSize
    {
      CeilDiv(totalItems, pageSize)
    }
  }

  /** The index of the first item of `page`. */
  function Offset(page: int, pageSize: int): int {
    (page - 1) * pageSize
  }

  lemma OffsetNonNegative(page: int, pageSize: int)
    requires page >= 1 && pageSize >= 0
    ensures Offset(page, pageSize) >= 0
  {
    if pageSize > 0 { MulMonotone(0, page - 1, pageSize); }
  }

  /** Skip(offset).Take(pageSize): a contiguous run of at most pageSize items from `offset` on. */
  function Window<T>(query: seq<T>, offset: int, pageSize: int): (r: seq<T>)
    ensures |r| == Max(0, Min(Max(0, pageSize), |query| - Max(0, offset)))
    ensures forall i :: 0 <= i < |r| ==> r[i] == query[Max(0, offset) + i]
  {
    Linq.Take(Linq.Skip(query, offset), pageSize)
  }

  /** query.Skip((page - 1) * pageSize).Take(pageSize), with the whole query's count. */
  function ToPagedResult<T>(query: seq<T>, page: int, pageSize: int): (r: PagedResponse<T>)
    ensures r.totalItems == |query| && r.page == page && r.pageSize == pageSize
    ensures |r.items| == Max(0, Min(Max(0, pageSize), |query| - Max(0, Offset(page, pageSize))))
    ensures forall i :: 0 <= i < |r.items| ==> r.items[i] == query[Max(0, Offset(page, pageSize)) + i]
  {
    PagedResponse(Window(query, Offset(page, pageSize), pageSize), page, pageSize, |query|)
  }

  /** The item count the paging tests expect: max(0, min(pageSize, total - (page - 1) * pageSize)). */
  lemma ItemCount<T>(query: seq<T>, page: int, pageSize: int)
    requires page >= 1 && pageSize >= 0
    ensures |ToPagedResult(query, page, pageSize).items| == Max(0, Min(pageSize, |query| - (page - 1) * pageSize))
  {
    OffsetNonNegative(page, pageSize);
  }

  /** A page that starts at or past the end is empty, yet still reports every item in TotalItems. */
  lemma PastEndPageIsEmpty<T>(query: seq<T>, page: int, pageSize: int)
    requires page >= 1 && pageSize > 0 && (page - 1) * pageSize >= |query|
    ensures ToPagedResult(query, page, pageSize).items == []
    ensures ToPagedResult(query, page, pageSize).totalItems == |query|
  {
  }

  /** Pages 1..k, concatenated. */
  function PagesUpTo<T>(query: seq<T>, pageSize: int, k: nat): seq<T>
  {
    if k == 0 then [] else PagesUpTo(query, pageSize, k - 1) + ToPagedResult(query, k, pageSize).items
  }

  lemma WindowAt<T>(query: seq<T>, lo: int, pageSize: int)
    requires lo >= 0 && pageSize > 0
    ensures query[..Min(lo, |query|)] + Window(query, lo, pageSize) == query[..Min(lo + pageSize, |query|)]
  {
    var w := Window(query, lo, pageSize);
    if lo >= |query| {
      assert w == [];
    } else {
      assert w == query[lo..Min(lo + pageSize, |query|)];
    }
  }

  lemma {:induction false} PagesUpToPrefix<T>(query: seq<T>, pageSize: int, k: nat)
    requires pageSize > 0
    ensures PagesUpTo(query, pageSize, k) == query[..Min(k * pageSize, |query|)]
  {
    if k > 0 {
      PagesUpToPrefix(query, pageSize, k - 1);
      var lo := (k - 1) * pageSize;
      assert k * pageSize == lo + pageSize;
      OffsetNonNegative(k, pageSize);
      assert ToPagedResult(query, k, pageSize).items == Window(query, lo, pageSize);
      WindowAt(query, lo, pageSize);
    }
  }

  /** Concatenating pages 1..TotalPages reconstructs the query, in order. */
  lemma AllPagesReconstructQuery<T>(query: seq<T>, pageSize: int)
    requires pageSize > 0
    ensures var n := ToPagedResult(query, 1, pageSize).TotalPages();
      n >= 0 && PagesUpTo(query, pageSize, n) == query
  {
    var n := ToPagedResult(query, 1, pageSize).TotalPages();
    assert n >= 0 by {
      if n < 0 { MulMonotone(n, -1, pageSize); }
    }
    PagesUpToPrefix(query, pageSize, n);
  }

  /** No items means no pages. */
  lemma ZeroItemsZeroPages<T>(items: seq<T>, page: int, pageSize: int)
    requires pageSize > 0
    ensures PagedResponse(items, page, pageSize, 0).TotalPages() == 0
    ensures PagedResult(items, page, pageSize, 0).TotalPages() == 0
  {
    CeilDivUnique(0, pageSize, 0);
  }

  /** An exact multiple of the page size fills exactly that many pages. */
  lemma ExactMultiplePages<T>(items: seq<T>, page: int, pageSize: int, k: int)
    requires pageSize > 0
    ensures PagedResponse(items, page, pageSize, k * pageSize).TotalPages() == k
    ensures PagedResult(items, page, pageSize, k * pageSize).TotalPages() == k
  {
    assert (k - 1) * pageSize == k * pageSize - pageSize;
    CeilDivUnique(k * pageSize, pageSize, k);
  }

  /** The figures in the paging tests: 5 or 15 items at page size 10. */
  lemma PageCountExamples<T>(items: seq<T>, page: int)
    ensures PagedResponse(items, page, 10, 5).TotalPages() == 1
    ensures PagedResponse(items, page, 10, 15).TotalPages() == 2
  {
    CeilDivUnique(5, 10, 1);
    CeilDivUnique(15, 10, 2);
  }

  // ---- The page offset as `ToPagedResultAsync` computes it: 32-bit unchecked arithmetic ----

  predicate IsInt32(x: int) { -0x8000_0000 <= x < 0x8000_0000 }

  /** Two's-complement wrap-around of an unchecked `int` operation. */
  function Wrap32(x: int): (r: int)
    ensures IsInt32(r)
    ensures IsInt32(x) ==> r == x
    ensures (r - x) % 0x1_0000_0000 == 0
  {
    (x + 0x8000_0000) % 0x1_0000_0000 - 0x8000_0000
  }

  /** ToPagedResultAsync as written: (page - 1) * pageSize is evaluated in 32-bit `int`. */
  function ToPagedResultAsWritten<T>(query: seq<T>, page: int, pageSize: int): (r: PagedResponse<T>)
    requires IsInt32(page) && IsInt32(pageSize)
    ensures r.totalItems == |query| && r.page == page && r.pageSize == pageSize
  {
    var offset := Wrap32(Wrap32(page - 1) * pageSize);
    PagedResponse(Linq.Take(Linq.Skip(query, offset), pageSize), page, pageSize, |query|)
  }

  /**
   * Page 1073741825 at page size 4 starts at item 2^32, past the end of any query, but the
   * 32-bit product wraps to 0, so `ToPagedResultAsync` returns the first page again.
   */
  lemma OffsetOverflowRereadsFirstPage<T>(query: seq<T>)
    requires 1 <= |query| < 0x8000_0000
    ensures ToPagedResultAsWritten(query, 1073741825, 4).items == query[..Min(4, |query|)]
    ensures ToPagedResultAsWritten(query, 1073741825, 4).items != []
    ensures ToPagedResult(query, 1073741825, 4).items == []
  {
    assert Wrap32(1073741824 * 4) == 0;
    assert Offset(1073741825, 4) == 0x1_0000_0000;
  }
}
