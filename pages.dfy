/** PageRequest (page, size, and the derived offset and limit) and Page (a slice plus its totals). */
module Pages {
  import opened Wrappers
  import opened JavaText
  import Arith

  const MAX_PAGE_SIZE: int := 100

  datatype PageRequest = PageRequest(page: Int32, size: Int32)

  /** The two IllegalArgumentExceptions of the compact constructor. */
  datatype PageRequestError =
    | PageNegative     // "page must be >= 0"
    | SizeOutOfRange   // "size must be 1..100"

  predicate InBounds(pr: PageRequest) {
    pr.page >= 0 && 1 <= pr.size <= MAX_PAGE_SIZE
  }

  /** The compact constructor: the page is checked before the size. */
  function NewPageRequest(page: Int32, size: Int32): (r: Result<PageRequest, PageRequestError>)
    ensures r.Success? <==> page >= 0 && 1 <= size <= MAX_PAGE_SIZE
    ensures r.Success? ==> r.value.page == page && r.value.size == size && InBounds(r.value)
    ensures page < 0 ==> r == Failure(PageNegative)
    ensures page >= 0 && !(1 <= size <= MAX_PAGE_SIZE) ==> r == Failure(SizeOutOfRange)
  {
    if page < 0 then Failure(PageNegative)
    else if size < 1 || size > MAX_PAGE_SIZE then Failure(SizeOutOfRange)
    else Success(PageRequest(page, size))
  }

  /** offset(): the product is taken in 64 bits, where no two ints can overflow it. */
  function Offset(pr: PageRequest): (r: int)
    ensures -LONG_MAX <= r <= LONG_MAX
    ensures InBounds(pr) ==> 0 <= r <= INT_MAX * MAX_PAGE_SIZE
    ensures InBounds(pr) ==> r % pr.size == 0 && r / pr.size == pr.page
  {
    ProductOfIntsFitsLong(pr.page, pr.size);
    InBoundsOffset(pr);
    pr.page * pr.size
  }

  lemma InBoundsOffset(pr: PageRequest)
    ensures InBounds(pr) ==> 0 <= pr.page * pr.size <= INT_MAX * MAX_PAGE_SIZE
    ensures InBounds(pr) ==> (pr.page * pr.size) % pr.size == 0 && (pr.page * pr.size) / pr.size == pr.page
  {
    if InBounds(pr) {
      Arith.MulMonotone(0, pr.page, pr.size);
      Arith.MulMonotone(pr.page, INT_MAX, pr.size);
      Arith.MulMonotone(pr.size, MAX_PAGE_SIZE, INT_MAX);
      Arith.DivUnique(pr.page * pr.size, pr.size, pr.page, 0);
    }
  }

  lemma ProductOfIntsFitsLong(a: Int32, b: Int32)
    ensures -LONG_MAX <= a * b <= LONG_MAX
  {
    var x: nat := if a < 0 then -(a as int) else a;
    var y: nat := if b < 0 then -(b as int) else b;
    assert x <= 0x8000_0000 && y <= 0x8000_0000;
    Arith.MulMonotone(x, 0x8000_0000, y);
    Arith.MulMonotone(y, 0x8000_0000, 0x8000_0000);
    assert a * b == x * y || a * b == -(x * y);
  }

  /** limit(): the page size. */
  function Limit(pr: PageRequest): (r: int)
    ensures r == pr.size
    ensures InBounds(pr) ==> 1 <= r <= MAX_PAGE_SIZE
  {
    pr.size
  }

  datatype Page<T> = Page(content: seq<T>, page: Int32, size: Int32, totalElements: int, totalPages: Int32)

  /** The exact ceiling of total / size. */
  function CeilDiv(total: nat, size: int): (q: nat)
    requires size >= 1
    ensures total == 0 ==> q == 0
    ensures total > 0 ==> (q - 1) * size < total <= q * size
    ensures total % size == 0 ==> q == total / size
    ensures total % size != 0 ==> q == total / size + 1
  {
    CeilDivNat(total, size);
    (total + size - 1) / size
  }

  lemma CeilDivNat(total: nat, size: int)
    requires size >= 1
    ensures var q := (total + size - 1) / size;
      && q >= 0
      && (total == 0 ==> q == 0)
      && (total > 0 ==> (q - 1) * size < total <= q * size)
      && (total % size == 0 ==> q == total / size)
      && (total % size != 0 ==> q == total / size + 1)
  {
    var q := (total + size - 1) / size;
    Arith.DivModParts(total + size - 1, size);
    Arith.DivModParts(total, size);
    var k, m := total / size, total % size;
    if m == 0 {
      Arith.DivUnique(total + size - 1, size, k, size - 1);
    } else {
      Arith.DivUnique(total + size - 1, size, k + 1, m - 1);
    }
    assert (q - 1) * size == q * size - size;
  }

  /**
   * (int) Math.ceil(total / (double) size) for a row count and a positive size, computed
   * exactly: the ceiling of the quotient, capped at Integer.MAX_VALUE as the cast caps it.
   */
  function TotalPages(total: nat, size: int): (n: Int32)
    requires size >= 1
    ensures total == 0 ==> n == 0
    ensures 0 < total <= INT_MAX * size ==> (n - 1) * size < total <= n * size
    ensures total > INT_MAX * size ==> n == INT_MAX
  {
    var q := CeilDiv(total, size);
    CeilDivFitsInt(total, size);
    if q <= INT_MAX then q else INT_MAX
  }

  lemma CeilDivFitsInt(total: nat, size: int)
    requires 1 <= size
    ensures CeilDiv(total, size) <= INT_MAX <==> total <= INT_MAX * size
  {
    var q := CeilDiv(total, size);
    if total > 0 {
      if q <= INT_MAX {
        Arith.MulMonotone(q, INT_MAX, size);
      } else {
        Arith.MulMonotone(INT_MAX, q - 1, size);
      }
    }
  }

  /** Page.of: the four inputs are stored as given, totalPages is derived from them. */
  function PageOf<T>(content: seq<T>, page: Int32, size: Int32, total: nat): (p: Page<T>)
    requires size >= 1
    ensures p.content == content && p.page == page && p.size == size && p.totalElements == total
    ensures total == 0 ==> p.totalPages == 0
    ensures 0 < total <= INT_MAX * size ==> (p.totalPages - 1) * size < total <= p.totalPages * size
    ensures total > INT_MAX * size ==> p.totalPages == INT_MAX
  {
    Page(content, page, size, total, TotalPages(total, size))
  }

  /** Every row falls on exactly one page before totalPages, and no page at or after it holds a row. */
  lemma {:induction false} PagesCoverRows(total: nat, size: int, page: nat)
    requires size >= 1
    requires total <= INT_MAX * size
    ensures page < TotalPages(total, size) <==> page * size < total
  {
    var n := TotalPages(total, size);
    if page < n {
      Arith.MulMonotone(page, n - 1, size);
    } else if total > 0 {
      Arith.MulMonotone(n, page, size);
    }
  }
}
