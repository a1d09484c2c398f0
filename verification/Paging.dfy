/** Django's `Paginator` as `home` constructs it: `Paginator(object_list,
    per_page)` with the default `orphans = 0` and `allow_empty_first_page = True`. */
module Paging {

  datatype Paginator<T> = Paginator(objectList: seq<T>, perPage: nat)

  /** One page: its rows, its 1-based number, and the paginator it came from. */
  datatype Page<T> = Page(objectList: seq<T>, number: nat, paginator: Paginator<T>)

  /** The rows on `pages` full pages, `pages * perPage`, as repeated addition. */
  function Rows(perPage: nat, pages: nat): nat
  {
    if pages == 0 then 0 else Rows(perPage, pages - 1) + perPage
  }

  lemma {:induction false} RowsIsProduct(perPage: nat, pages: nat)
    ensures Rows(perPage, pages) == pages * perPage
  {
    if pages > 0 {
      RowsIsProduct(perPage, pages - 1);
    }
  }

  lemma {:induction false} RowsMonotone(perPage: nat, a: nat, b: nat)
    requires a <= b
    ensures Rows(perPage, a) <= Rows(perPage, b)
    decreases b
  {
    if a < b {
      RowsMonotone(perPage, a, b - 1);
    }
  }

  /** Row `i` lies on the `i / perPage`-th run of full pages, `i % perPage` rows in. */
  lemma DivisionBounds(perPage: nat, i: nat)
    requires perPage > 0
    ensures Rows(perPage, i / perPage) <= i < Rows(perPage, i / perPage + 1)
    ensures i - Rows(perPage, i / perPage) == i % perPage
  {
    RowsIsProduct(perPage, i / perPage);
    assert i == (i / perPage) * perPage + i % perPage;
  }

  /** The least page count whose full pages hold `count` rows, at least one. */
  function PagesFor(count: nat, perPage: nat): (k: nat)
    requires perPage > 0
    ensures k >= 1
    ensures count <= Rows(perPage, k)
    ensures k == 1 || Rows(perPage, k - 1) < count
    decreases count
  {
    if count <= perPage then 1 else 1 + PagesFor(count - perPage, perPage)
  }

  /** `num_pages`: `ceil(max(1, count) / per_page)`, so an empty list still has
      one (empty) page. It is the least page count that holds every row. */
  function NumPages<T>(p: Paginator<T>): (k: nat)
    requires p.perPage > 0
    ensures k >= 1
    ensures |p.objectList| <= Rows(p.perPage, k)
    ensures k == 1 || Rows(p.perPage, k - 1) < |p.objectList|
  {
    PagesFor(if |p.objectList| > 1 then |p.objectList| else 1, p.perPage)
  }

  /** The page count is Django's `ceil(hits / per_page)` with `hits =
      max(1, count)`, computed as `(hits + per_page - 1) // per_page`. */
  lemma NumPagesIsCeiling<T>(p: Paginator<T>)
    requires p.perPage > 0
    ensures var hits := if |p.objectList| > 1 then |p.objectList| else 1;
      NumPages(p) == (hits + p.perPage - 1) / p.perPage
  {
    var hits := if |p.objectList| > 1 then |p.objectList| else 1;
    var q := (hits + p.perPage - 1) / p.perPage;
    DivisionBounds(p.perPage, hits + p.perPage - 1);
    assert q >= 1 && Rows(p.perPage, q - 1) < hits <= Rows(p.perPage, q);
    LeastCover(p.perPage, hits, q, NumPages(p));
  }

  /** Only one page count `k` has `Rows(k - 1) < hits <= Rows(k)`. */
  lemma LeastCover(perPage: nat, hits: nat, a: nat, b: nat)
    requires a >= 1 && b >= 1
    requires Rows(perPage, a - 1) < hits <= Rows(perPage, a)
    requires Rows(perPage, b - 1) < hits <= Rows(perPage, b)
    ensures a == b
  {
    if a < b {
      RowsMonotone(perPage, a, b - 1);
    } else if b < a {
      RowsMonotone(perPage, b, a - 1);
    }
  }

  /** `validate_number`: the numbers for which `page()` does not raise `EmptyPage`. */
  predicate ValidNumber<T>(p: Paginator<T>, number: int)
    requires p.perPage > 0
  {
    1 <= number <= NumPages(p)
  }

  /** `paginator.page(number)` for a valid number: rows `bottom` up to `top`,
      where the last page runs to the end of the list. */
  function PageAt<T>(p: Paginator<T>, number: nat): (r: Page<T>)
    requires p.perPage > 0 && ValidNumber(p, number)
    ensures r.number == number && r.paginator == p
    ensures |r.objectList| <= p.perPage
    ensures |r.objectList| == 0 <==> |p.objectList| == 0
    ensures Rows(p.perPage, number - 1) <= |p.objectList|
    ensures number < NumPages(p) ==> Rows(p.perPage, number) <= |p.objectList|
    ensures r.objectList == p.objectList[Rows(p.perPage, number - 1) ..
                                         if number == NumPages(p) then |p.objectList| else Rows(p.perPage, number)]
  {
    var count := |p.objectList|;
    var bottom := Rows(p.perPage, number - 1);  // (number - 1) * per_page
    var top := bottom + p.perPage;
    PageBounds(p, number);
    var top' := if top >= count then count else top;
    Page(p.objectList[bottom..top'], number, p)
  }

  /** Where a valid page starts and ends, measured in rows. */
  lemma PageBounds<T>(p: Paginator<T>, number: nat)
    requires p.perPage > 0 && ValidNumber(p, number)
    ensures Rows(p.perPage, number - 1) <= |p.objectList|
    ensures Rows(p.perPage, number) == Rows(p.perPage, number - 1) + p.perPage
    ensures number < NumPages(p) ==> Rows(p.perPage, number) < |p.objectList|
    ensures number == NumPages(p) ==> |p.objectList| <= Rows(p.perPage, number)
    ensures |p.objectList| > 0 ==> Rows(p.perPage, number - 1) < |p.objectList|
  {
    RowsMonotone(p.perPage, number - 1, NumPages(p) - 1);
    if number < NumPages(p) {
      RowsMonotone(p.perPage, number, NumPages(p) - 1);
    }
  }

  /** The `try: page(n) except EmptyPage: page(num_pages)` of `home`: a page
      number outside `1..num_pages` (zero and negative ones included) gives the
      last page instead of an error. */
  function PageOrLast<T>(p: Paginator<T>, number: int): (r: Page<T>)
    requires p.perPage > 0
    ensures ValidNumber(p, r.number)
    ensures r.number == if ValidNumber(p, number) then number else NumPages(p)
    ensures r == PageAt(p, r.number)
  {
    if ValidNumber(p, number) then PageAt(p, number) else PageAt(p, NumPages(p))
  }

  /** What the page `PageOrLast` returns holds, in one place. */
  lemma PageOrLastShows<T>(p: Paginator<T>, number: int)
    requires p.perPage > 0
    ensures var shown := PageOrLast(p, number);
      && shown.paginator == p
      && shown.number == (if 1 <= number <= NumPages(p) then number else NumPages(p))
      && |shown.objectList| <= p.perPage
      && shown.objectList ==
           p.objectList[Rows(p.perPage, shown.number - 1) ..
                        if shown.number == NumPages(p) then |p.objectList| else Rows(p.perPage, shown.number)]
      && PagesFrom(p, 1) == p.objectList
  {
    PagesCoverList(p);
  }

  /** Every row a page shows is a row of the paginated list. */
  lemma PageRowsFromList<T>(p: Paginator<T>, number: int)
    requires p.perPage > 0
    ensures forall x :: x in PageOrLast(p, number).objectList ==> x in p.objectList
  {
    var shown := PageOrLast(p, number);
    var lo := Rows(p.perPage, shown.number - 1);
    forall x | x in shown.objectList ensures x in p.objectList {
      var j :| 0 <= j < |shown.objectList| && shown.objectList[j] == x;
      assert p.objectList[lo + j] == x;
    }
  }

  /** The row at position `i` of the list is on page `i / per_page + 1`, at
      position `i % per_page` of that page. */
  lemma RowOnItsPage<T>(p: Paginator<T>, i: nat)
    requires p.perPage > 0 && i < |p.objectList|
    ensures ValidNumber(p, i / p.perPage + 1)
    ensures var rows := PageAt(p, i / p.perPage + 1).objectList;
      i % p.perPage < |rows| && rows[i % p.perPage] == p.objectList[i]
  {
    var n, k := i / p.perPage + 1, NumPages(p);
    DivisionBounds(p.perPage, i);
    assert n <= k by {
      if n > k {
        RowsMonotone(p.perPage, k, n - 1);
      }
    }
  }

  /** Asking for row `i`'s page shows that page, with row `i` at position
      `i % per_page`. */
  lemma RowOnShownPage<T>(p: Paginator<T>, i: nat)
    requires p.perPage > 0 && i < |p.objectList|
    ensures var shown := PageOrLast(p, i / p.perPage + 1);
      && shown.number == i / p.perPage + 1
      && i % p.perPage < |shown.objectList|
      && shown.objectList[i % p.perPage] == p.objectList[i]
  {
    RowOnItsPage(p, i);
  }

  /** The rows of pages `number`, `number + 1`, ..., `num_pages`, one after another. */
  function PagesFrom<T>(p: Paginator<T>, number: nat): seq<T>
    requires p.perPage > 0 && number >= 1
    decreases NumPages(p) + 1 - number
  {
    if number > NumPages(p) then [] else PageAt(p, number).objectList + PagesFrom(p, number + 1)
  }

  lemma {:induction false} PagesFromIsSuffix<T>(p: Paginator<T>, number: nat)
    requires p.perPage > 0 && ValidNumber(p, number)
    ensures Rows(p.perPage, number - 1) <= |p.objectList|
    ensures PagesFrom(p, number) == p.objectList[Rows(p.perPage, number - 1)..]
    decreases NumPages(p) - number
  {
    if number == NumPages(p) {
      LastPageIsSuffix(p);
    } else {
      PagesFromIsSuffix(p, number + 1);
      SuffixStep(p, number);
    }
  }

  /** One step of the induction: page `number` prepended to the rows of the
      pages after it gives the list from that page's first row on. */
  lemma SuffixStep<T>(p: Paginator<T>, number: nat)
    requires p.perPage > 0 && ValidNumber(p, number) && number < NumPages(p)
    requires Rows(p.perPage, number) <= |p.objectList|
    requires PagesFrom(p, number + 1) == p.objectList[Rows(p.perPage, number)..]
    ensures Rows(p.perPage, number - 1) <= |p.objectList|
    ensures PagesFrom(p, number) == p.objectList[Rows(p.perPage, number - 1)..]
  {
    var list, bottom, top := p.objectList, Rows(p.perPage, number - 1), Rows(p.perPage, number);
    var rows := PageAt(p, number).objectList;
    assert bottom <= top && rows + list[top..] == list[bottom..] by {
      PageThenRest(p, number);
    }
    PagesFromUnfold(p, number);
  }

  lemma PagesFromUnfold<T>(p: Paginator<T>, number: nat)
    requires p.perPage > 0 && ValidNumber(p, number)
    ensures PagesFrom(p, number) == PageAt(p, number).objectList + PagesFrom(p, number + 1)
  {
  }

  /** The last page alone runs from its first row to the end of the list. */
  lemma LastPageIsSuffix<T>(p: Paginator<T>)
    requires p.perPage > 0
    ensures Rows(p.perPage, NumPages(p) - 1) <= |p.objectList|
    ensures PagesFrom(p, NumPages(p)) == p.objectList[Rows(p.perPage, NumPages(p) - 1)..]
  {
    var n := NumPages(p);
    assert PagesFrom(p, n + 1) == [];
    assert PagesFrom(p, n) == PageAt(p, n).objectList + [];
  }

  /** A page that is not the last, followed by the rows after it, is the list
      from that page's first row on. */
  lemma PageThenRest<T>(p: Paginator<T>, number: nat)
    requires p.perPage > 0 && ValidNumber(p, number) && number < NumPages(p)
    ensures Rows(p.perPage, number - 1) <= Rows(p.perPage, number) <= |p.objectList|
    ensures PageAt(p, number).objectList + p.objectList[Rows(p.perPage, number)..]
            == p.objectList[Rows(p.perPage, number - 1)..]
  {
    var list, bottom, top := p.objectList, Rows(p.perPage, number - 1), Rows(p.perPage, number);
    PageBounds(p, number);
    assert list[bottom..] == list[bottom..top] + list[top..];
  }

  /** The pages partition the list: read in order, they give back every row
      exactly once and in order. */
  lemma PagesCoverList<T>(p: Paginator<T>)
    requires p.perPage > 0
    ensures PagesFrom(p, 1) == p.objectList
  {
    PagesFromIsSuffix(p, 1);
  }
}
