/** A catalog that serves one fixed list of items by offset: page `p` of
    size `s` is the items from position `p * s` on, at most `s` of them. It
    is the setting in which the two ways of choosing the request size can be
    compared. */
module NbOffsetPaging {
  import opened Wrappers
  import opened Catalog
  import opened NbSearch

  /** `ceil(n / size)` pages, and none for a size below one; counted page
      by page to keep division out of the proofs. */
  function PageCount(n: int, size: int): nat
    decreases n
  {
    if size <= 0 || n <= 0 then 0 else 1 + PageCount(n - size, size)
  }

  /** The position of page `page`'s first item, `page * size`. */
  function Offset(page: nat, size: nat): nat
  {
    if page == 0 then 0 else Offset(page - 1, size) + size
  }

  lemma {:induction false} OffsetIsProduct(page: nat, size: nat)
    ensures Offset(page, size) == page * size
  {
    if page > 0 {
      OffsetIsProduct(page - 1, size);
    }
  }

  /** The items on one page. */
  function PageSlice(all: seq<CatalogItem>, req: PageRequest): seq<CatalogItem>
  {
    if req.size <= 0 || req.page < 0 then []
    else all[Min(Offset(req.page, req.size), |all|) .. Min(Offset(req.page, req.size) + req.size, |all|)]
  }

  /** The catalog that always answers 200 with the requested slice. */
  function OffsetCatalog(all: seq<CatalogItem>): CatalogApi
  {
    (req: PageRequest) => Response(200, PageSlice(all, req), PageCount(|all|, req.size))
  }

  /** What the catalog answers to one request. */
  lemma OffsetCatalogAnswers(all: seq<CatalogItem>, req: PageRequest)
    ensures OffsetCatalog(all)(req) == Response(200, PageSlice(all, req), PageCount(|all|, req.size))
  {
  }

  /** The page count is the ceiling of `n / s`: enough pages of `s` to
      hold `n` items, and one fewer would not be. */
  lemma {:induction false} PageCountIsCeiling(n: int, s: int)
    requires n >= 0 && s >= 1
    ensures PageCount(n, s) == (n + s - 1) / s
    decreases n
  {
    if n > s {
      PageCountIsCeiling(n - s, s);
      DivStep(n - 1, s);
    } else if n > 0 {
      assert PageCount(n - s, s) == 0;
      DivOne(n + s - 1, s);
    }
  }

  /** Adding the divisor adds one to the quotient. */
  lemma DivStep(x: int, s: int)
    requires x >= 0 && s >= 1
    ensures (x + s) / s == x / s + 1
  {
    var q, r := x / s, x % s;
    assert x == q * s + r && 0 <= r < s;
    assert x + s == (q + 1) * s + r;
    DivUnique(x + s, s, q + 1, r);
  }

  /** A number from `s` to `2 * s - 1` holds `s` once. */
  lemma DivOne(x: int, s: int)
    requires s >= 1 && s <= x < 2 * s
    ensures x / s == 1
  {
    DivUnique(x, s, 1, x - s);
  }

  /** The quotient is the unique `q` with `x == q * s + r` and `0 <= r < s`. */
  lemma DivUnique(x: int, s: int, q: int, r: int)
    requires s >= 1 && 0 <= r < s && x == q * s + r
    ensures x / s == q
  {
    var q', r' := x / s, x % s;
    assert x == q' * s + r' && 0 <= r' < s;
    var d := q - q';
    assert d * s == r' - r by {
      assert q * s - q' * s == (q - q') * s;
    }
    if d >= 1 {
      MulAtLeast(d, s);
    } else if d <= -1 {
      MulAtLeast(-d, s);
    }
  }

  lemma MulAtLeast(a: int, s: int)
    requires a >= 1 && s >= 1
    ensures a * s >= s
  {
    assert a * s == (a - 1) * s + s;
  }

  /** The catalog serves page `p` of size `s` as the items at positions
      `p * s` up to `p * s + s`, clipped to the list, with status 200, and
      reports `ceil(n / s)` pages for `n` items. */
  lemma OffsetCatalogServesSlices(all: seq<CatalogItem>, p: nat, s: int)
    requires s >= 1
    ensures OffsetCatalog(all)(PageRequest(p, s))
            == Response(200, all[Min(p * s, |all|) .. Min(p * s + s, |all|)], (|all| + s - 1) / s)
  {
    OffsetIsProduct(p, s);
    PageCountIsCeiling(|all|, s);
  }

  /** Page `k` continues the items of the pages before it. */
  lemma SliceStep(all: seq<CatalogItem>, k: nat, s: int)
    requires s >= 1
    ensures all[..Min(Offset(k + 1, s), |all|)] == all[..Min(Offset(k, s), |all|)] + PageSlice(all, PageRequest(k, s))
  {
    var lo := Min(Offset(k, s), |all|);
    var hi := Min(Offset(k + 1, s), |all|);
    assert all[..hi] == all[..lo] + all[lo..hi];
  }

  /** Fixed-size pages 0, ..., k - 1 together hold the first `k * s` items. */
  lemma {:induction false} GatheredFixedPages(all: seq<CatalogItem>, s: int, reqs: seq<PageRequest>)
    requires s >= 1
    requires forall i :: 0 <= i < |reqs| ==> reqs[i] == PageRequest(i, s)
    ensures Gathered(OffsetCatalog(all), reqs) == Retained(all[..Min(Offset(|reqs|, s), |all|)])
    decreases |reqs|
  {
    if reqs != [] {
      var k := |reqs| - 1;
      var front := reqs[..k];
      GatheredFixedPages(all, s, front);
      assert reqs == front + [reqs[k]];
      GatheredSnoc(OffsetCatalog(all), front, reqs[k]);
      OffsetCatalogAnswers(all, reqs[k]);
      SliceStep(all, k, s);
      RetainedAppend(all[..Min(Offset(k, s), |all|)], PageSlice(all, reqs[k]));
    }
  }

  /** A longer list that starts with `xs` gives the same capped list once
      `xs` alone reaches the cap. */
  lemma CappedOfExtension<T>(xs: seq<T>, ys: seq<T>, cap: Option<int>)
    requires xs <= ys
    requires CapReachedAt(cap, |Capped(xs, cap)|)
    ensures Capped(xs, cap) == Capped(ys, cap)
  {
  }

  /** `k` pages of size `s` cover `count` items once `k` reaches the page
      count. */
  lemma {:induction false} PagesCover(count: int, k: nat, s: int)
    requires s >= 1 && k >= PageCount(count, s)
    ensures Offset(k, s) >= count
    decreases count
  {
    if count > 0 {
      PagesCover(count - s, k - 1, s);
    }
  }

  /** The catalog never fails, and a request bound that covers every page
      is never used up: the search ends on the last page or at the cap. */
  lemma OffsetPagingEnds(all: seq<CatalogItem>, s: int, cap: Option<int>, fuel: nat)
    requires s >= 1
    requires fuel >= Max(PageCount(|all|, s), 1)
    ensures var r := SearchPages(OffsetCatalog(all), s, cap, fuel);
            r.stop.LastPage? || r.stop.CapReached?
    ensures var r := SearchPages(OffsetCatalog(all), s, cap, fuel);
            r.stop.LastPage? ==> Offset(|r.requests|, s) >= |all|
  {
    var api := OffsetCatalog(all);
    var r := SearchPages(api, s, cap, fuel);
    var n := |r.requests|;
    PaginateStops(api, KeepPageSize, s, cap, [], [], fuel);
    if n > 0 {
      OffsetCatalogAnswers(all, r.requests[n - 1]);
    }
    if r.stop.HttpError? || r.stop.OutOfFuel? {
      assert false;
    }
    if r.stop.LastPage? {
      PagesCover(|all|, n, s);
    }
  }

  /** The records of a search over fixed-size pages are the capped records
      of the items those pages cover. */
  lemma OffsetRecords(all: seq<CatalogItem>, s: int, cap: Option<int>, fuel: nat)
    requires s >= 1
    ensures var r := SearchPages(OffsetCatalog(all), s, cap, fuel);
            r.records == Capped(Retained(all[..Min(Offset(|r.requests|, s), |all|)]), cap)
  {
    var r := SearchPages(OffsetCatalog(all), s, cap, fuel);
    GatheredFixedPages(all, s, r.requests);
  }

  /** With every request asking for `page_size` items, the search returns
      every kept item of the catalog exactly once, in order, up to the cap,
      provided the request bound covers every page. */
  lemma OffsetPagingComplete(all: seq<CatalogItem>, s: int, cap: Option<int>, fuel: nat)
    requires s >= 1
    requires fuel >= Max(PageCount(|all|, s), 1)
    ensures SearchPages(OffsetCatalog(all), s, cap, fuel).records == Capped(Retained(all), cap)
  {
    var r := SearchPages(OffsetCatalog(all), s, cap, fuel);
    OffsetPagingEnds(all, s, cap, fuel);
    OffsetRecords(all, s, cap, fuel);
    var m := Min(Offset(|r.requests|, s), |all|);
    if r.stop.LastPage? {
      CompleteOnLastPage(all, m, cap, r.records);
    } else {
      PaginateStops(OffsetCatalog(all), KeepPageSize, s, cap, [], [], fuel);
      CompleteAtCap(all, m, cap, r.records);
    }
  }

  /** Records of a prefix that is the whole catalog are those of the
      catalog. */
  lemma CompleteOnLastPage(all: seq<CatalogItem>, m: int, cap: Option<int>, records: seq<NbRecord>)
    requires m == |all|
    requires records == Capped(Retained(all[..m]), cap)
    ensures records == Capped(Retained(all), cap)
  {
    assert all[..m] == all;
  }

  /** Records of a prefix that already reach the cap are those of the
      whole catalog. */
  lemma CompleteAtCap(all: seq<CatalogItem>, m: int, cap: Option<int>, records: seq<NbRecord>)
    requires 0 <= m <= |all|
    requires records == Capped(Retained(all[..m]), cap)
    requires CapReachedAt(cap, |records|)
    ensures records == Capped(Retained(all), cap)
  {
    assert all == all[..m] + all[m..];
    RetainedAppend(all[..m], all[m..]);
    CappedOfExtension(Retained(all[..m]), Retained(all), cap);
  }

  /** The two pages the script asks for when three items are wanted in
      pages of two: page 0 of size 2, then page 1 of size 1. */
  lemma ShrunkPages(a: CatalogItem, b: CatalogItem, c: CatalogItem)
    ensures OffsetCatalog([a, b, c])(PageRequest(0, 2)) == Response(200, [a, b], 2)
    ensures OffsetCatalog([a, b, c])(PageRequest(1, 1)) == Response(200, [b], 3)
  {
    var all := [a, b, c];
    OffsetCatalogAnswers(all, PageRequest(0, 2));
    OffsetCatalogAnswers(all, PageRequest(1, 1));
    assert PageCount(3, 2) == 2 by {
      assert PageCount(1, 2) == 1;
    }
    assert PageCount(3, 1) == 3 by {
      assert PageCount(1, 1) == 1;
    }
    assert Offset(1, 1) == 1;
    assert all[0..2] == [a, b];
    assert all[1..2] == [b];
  }

  /** Finding: shrinking the request size while the page number keeps
      counting skips the catalog's offsets. Three items, pages of two and
      `max_results` 3: the script asks for page 0 of size 2 and then page 1
      of size 1, which is the second item again, so the second item is
      kept twice and the third never. */
  lemma ShrinkingPagesRepeatItems(a: CatalogItem, b: CatalogItem, c: CatalogItem)
    requires HasGeographics(a) && HasGeographics(b) && HasGeographics(c)
    ensures SearchPagesAsWritten(OffsetCatalog([a, b, c]), 2, Some(3), 2).records
            == [ToRecord(a), ToRecord(b), ToRecord(b)]
  {
    var api := OffsetCatalog([a, b, c]);
    var r0 := PageRequest(0, 2);
    var r1 := PageRequest(1, 1);
    ShrunkPages(a, b, c);
    PaginateContinues(api, ShrinkToRemaining, 2, Some(3), [], [], 2);
    TakeUntilCapIsCapped([], [a, b], Some(3));
    var acc1 := TakeUntilCap([], [a, b], Some(3));
    assert acc1 == [ToRecord(a), ToRecord(b)] by {
      assert Retained([b]) == [ToRecord(b)];
      assert [] + Retained([a, b]) == [ToRecord(a), ToRecord(b)];
    }
    PaginateContinues(api, ShrinkToRemaining, 2, Some(3), acc1, [r0], 1);
    TakeUntilCapIsCapped(acc1, [b], Some(3));
    var acc2 := TakeUntilCap(acc1, [b], Some(3));
    assert acc2 == [ToRecord(a), ToRecord(b), ToRecord(b)] by {
      assert Retained([b]) == [ToRecord(b)];
    }
    PaginateEnds(api, ShrinkToRemaining, 2, Some(3), acc2, [r0, r1], 0);
  }

  /** The corrected search over the same three items keeps each once. */
  lemma FixedPagesKeepEachItem(a: CatalogItem, b: CatalogItem, c: CatalogItem)
    requires HasGeographics(a) && HasGeographics(b) && HasGeographics(c)
    ensures SearchPages(OffsetCatalog([a, b, c]), 2, Some(3), 2).records
            == [ToRecord(a), ToRecord(b), ToRecord(c)]
  {
    assert PageCount(3, 2) == 2 by {
      assert PageCount(1, 2) == 1;
    }
    OffsetPagingComplete([a, b, c], 2, Some(3), 2);
    assert Retained([a, b, c]) == [ToRecord(a), ToRecord(b), ToRecord(c)] by {
      assert [a, b, c][1..] == [b, c] && [b, c][1..] == [c];
      assert Retained([c]) == [ToRecord(c)];
      assert Retained([b, c]) == [ToRecord(b), ToRecord(c)];
    }
  }
}
