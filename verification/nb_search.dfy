/** `search_nb_images` of the spreadsheet script: page through the catalog
    from page 0, keep the items that carry subject geographics, and split the
    first geographic name positionally into Land, Fylke and Kommune. */
module NbSearch {
  import opened Wrappers
  import opened Text
  import opened Catalog

  // ---------------------------------------------------------------------------
  // Items
  // ---------------------------------------------------------------------------

  /** The record appended for a retained item: thumbnail, title and the
      first subject geographic name. */
  datatype NbRecord = NbRecord(thumbnail: Option<string>, title: Option<string>, geographics: string)

  /** The URL template part that selects an image size. */
  const SizePlaceholder: string := "{width},{height}"

  /** A thumbnail URL asking for the full-size image: a present, non-empty
      URL has every size placeholder replaced by `full`; an absent one stays
      absent. */
  function FullSizeThumbnail(href: Option<string>): (r: Option<string>)
    ensures r.None? <==> href.None?
    ensures r.Some? ==> !Occurs(r.value, SizePlaceholder)
    ensures href.Some? && !Occurs(href.value, SizePlaceholder) ==> r == href
  {
    if href.Some? && href.value != [] then
      FullSizeRewrite(href.value);
      Some(ReplaceAll(href.value, SizePlaceholder, "full"))
    else
      href
  }

  /** Replacing the placeholder by `full` removes every placeholder and
      changes nothing in a URL without one. */
  lemma FullSizeRewrite(url: string)
    ensures !Occurs(ReplaceAll(url, SizePlaceholder, "full"), SizePlaceholder)
    ensures !Occurs(url, SizePlaceholder) ==> ReplaceAll(url, SizePlaceholder, "full") == url
  {
    ReplaceAllRemoves(url, SizePlaceholder, "full");
    if !Occurs(url, SizePlaceholder) {
      ReplaceAllIdentity(url, SizePlaceholder, "full");
    }
  }

  /** A size segment between slashes becomes `full`, and the rest of the
      URL on either side is rewritten on its own: an IIIF-style link
      `…/{width},{height}/…` asks for the full image. */
  lemma FullSizeBetweenSlashes(before: string, after: string)
    ensures FullSizeThumbnail(Some(before + ['/'] + SizePlaceholder + ['/'] + after))
            == Some(ReplaceAll(before, SizePlaceholder, "full") + ['/'] + "full" + ['/'] + ReplaceAll(after, SizePlaceholder, "full"))
  {
    var url := before + ['/'] + SizePlaceholder + ['/'] + after;
    FullSizeOfLink(url);
    ReplaceAllBetween(before, '/', after, SizePlaceholder, "full");
  }

  lemma FullSizeOfLink(url: string)
    requires url != []
    ensures FullSizeThumbnail(Some(url)) == Some(ReplaceAll(url, SizePlaceholder, "full"))
  {
  }

  /** The item has a non-empty `subject.geographics` list. */
  predicate HasGeographics(item: CatalogItem)
  {
    item.geographics.Some? && item.geographics.value != []
  }

  /** The record kept for an item with geographics. */
  function ToRecord(item: CatalogItem): NbRecord
    requires HasGeographics(item)
  {
    NbRecord(FullSizeThumbnail(item.thumbnailCustom), item.title, item.geographics.value[0])
  }

  /** The records an unbounded pass over `items` keeps, in order: items
      without geographics are dropped, every other item gives one record. */
  function Retained(items: seq<CatalogItem>): (rs: seq<NbRecord>)
    ensures |rs| <= |items|
  {
    if items == [] then []
    else
      var rest := Retained(items[1..]);
      if HasGeographics(items[0]) then [ToRecord(items[0])] + rest else rest
  }

  /** Every kept record comes from an item with geographics; if every item
      has geographics, every item gives a record; if none has, nothing is
      kept. */
  lemma {:induction false} RetainedFromItems(items: seq<CatalogItem>)
    ensures forall r :: r in Retained(items) ==> exists it :: it in items && HasGeographics(it) && r == ToRecord(it)
    ensures (forall it :: it in items ==> HasGeographics(it)) ==> |Retained(items)| == |items|
    ensures (forall it :: it in items ==> !HasGeographics(it)) ==> Retained(items) == []
    decreases |items|
  {
    if items != [] {
      RetainedFromItems(items[1..]);
      assert forall it :: it in items[1..] ==> it in items;
    }
  }

  /** Retention is item by item, so it distributes over concatenation. */
  lemma {:induction false} RetainedAppend(a: seq<CatalogItem>, b: seq<CatalogItem>)
    ensures Retained(a + b) == Retained(a) + Retained(b)
    decreases |a|
  {
    if a == [] {
      assert a + b == b;
    } else {
      assert (a + b)[0] == a[0] && (a + b)[1..] == a[1..] + b;
      RetainedAppend(a[1..], b);
    }
  }

  // ---------------------------------------------------------------------------
  // The result cap (`max_results`)
  // ---------------------------------------------------------------------------

  /** `max_results is not None and total_results_fetched >= max_results`. */
  predicate CapReachedAt(cap: Option<int>, fetched: int)
  {
    cap.Some? && fetched >= cap.value
  }

  /** At most `cap` leading elements of `xs` (all of them without a cap). */
  function Capped<T>(xs: seq<T>, cap: Option<int>): (r: seq<T>)
    ensures r <= xs
    ensures cap.None? ==> r == xs
    ensures cap.Some? ==> |r| == Min(|xs|, Max(cap.value, 0))
  {
    if cap.None? then xs else xs[..Min(|xs|, Max(cap.value, 0))]
  }

  /** A capped list that has not reached the cap lost nothing. */
  lemma CappedShort<T>(xs: seq<T>, cap: Option<int>)
    requires !CapReachedAt(cap, |Capped(xs, cap)|)
    ensures Capped(xs, cap) == xs
  {
  }

  /** The inner loop over one page's items: append a record per item with
      geographics, and stop as soon as the cap is reached. */
  function TakeUntilCap(acc: seq<NbRecord>, items: seq<CatalogItem>, cap: Option<int>): seq<NbRecord>
    decreases |items|
  {
    if items == [] || CapReachedAt(cap, |acc|) then acc
    else if HasGeographics(items[0]) then TakeUntilCap(acc + [ToRecord(items[0])], items[1..], cap)
    else TakeUntilCap(acc, items[1..], cap)
  }

  /** Started below the cap, the inner loop leaves exactly the capped
      concatenation of the records so far and the page's retained records. */
  lemma {:induction false} TakeUntilCapIsCapped(acc: seq<NbRecord>, items: seq<CatalogItem>, cap: Option<int>)
    requires cap.None? || |acc| <= cap.value
    ensures TakeUntilCap(acc, items, cap) == Capped(acc + Retained(items), cap)
    decreases |items|
  {
    if items == [] {
      assert acc + Retained(items) == acc;
    } else if !CapReachedAt(cap, |acc|) {
      assert Retained(items) == (if HasGeographics(items[0]) then [ToRecord(items[0])] else []) + Retained(items[1..]);
      if HasGeographics(items[0]) {
        assert acc + Retained(items) == (acc + [ToRecord(items[0])]) + Retained(items[1..]);
        TakeUntilCapIsCapped(acc + [ToRecord(items[0])], items[1..], cap);
      } else {
        TakeUntilCapIsCapped(acc, items[1..], cap);
      }
    }
  }

  // ---------------------------------------------------------------------------
  // Pagination
  // ---------------------------------------------------------------------------

  /** How the `size` of a request is chosen. The script shrinks it to the
      number of records still wanted; `KeepPageSize` always asks for
      `page_size` (see the finding on page offsets). */
  datatype SizePolicy = ShrinkToRemaining | KeepPageSize

  /** Why pagination ended. `OutOfFuel` is the model's bound on the number of
      requests: the script itself has none. */
  datatype StopReason = LastPage | CapReached | HttpError(status: int) | OutOfFuel

  /** The records kept, the requests made in order, and why it stopped. */
  datatype Search = Search(records: seq<NbRecord>, requests: seq<PageRequest>, stop: StopReason)

  /** The `size` of the next request, `fetched` records into the search. */
  function RequestSize(policy: SizePolicy, pageSize: int, cap: Option<int>, fetched: int): int
  {
    if policy == ShrinkToRemaining && cap.Some? && cap.value != 0
    then Min(pageSize, cap.value - fetched)
    else pageSize
  }

  /** The records one response contributes before any cap: nothing unless
      the status is 200. */
  function PageRecords(resp: Response): seq<NbRecord>
  {
    if resp.status == 200 then Retained(resp.items) else []
  }

  /** The records of all responses to `reqs`, in request order. */
  function Gathered(api: CatalogApi, reqs: seq<PageRequest>): seq<NbRecord>
  {
    if reqs == [] then []
    else Gathered(api, reqs[..|reqs| - 1]) + PageRecords(api(reqs[|reqs| - 1]))
  }

  /** One more request adds its response's records at the end. */
  lemma GatheredSnoc(api: CatalogApi, reqs: seq<PageRequest>, req: PageRequest)
    ensures Gathered(api, reqs + [req]) == Gathered(api, reqs) + PageRecords(api(req))
  {
    assert (reqs + [req])[..|reqs|] == reqs;
  }

  /** The response to the request for `page` lets the loop go on. */
  predicate Continues(resp: Response, page: int)
  {
    resp.status == 200 && page < resp.totalPages - 1
  }

  /** The `while True` loop of `search_nb_images`, from the request numbered
      `|reqs|` on, with `acc` the records kept so far and at most `fuel` more
      requests. Requests number the pages 0, 1, 2, ..., and the records are
      always the capped records of all responses so far. */
  function Paginate(api: CatalogApi, policy: SizePolicy, pageSize: int, cap: Option<int>,
                    acc: seq<NbRecord>, reqs: seq<PageRequest>, fuel: nat): (r: Search)
    ensures |reqs| <= |r.requests| <= |reqs| + fuel
    ensures r.requests[..|reqs|] == reqs
    ensures forall i :: |reqs| <= i < |r.requests| ==> r.requests[i].page == i
    decreases fuel
  {
    if CapReachedAt(cap, |acc|) then
      Search(acc, reqs, CapReached)
    else if fuel == 0 then
      Search(acc, reqs, OutOfFuel)
    else
      var req := PageRequest(|reqs|, RequestSize(policy, pageSize, cap, |acc|));
      var resp := api(req);
      var reqs' := reqs + [req];
      if resp.status != 200 then
        Search(acc, reqs', HttpError(resp.status))
      else
        var acc' := TakeUntilCap(acc, resp.items, cap);
        if |reqs| >= resp.totalPages - 1 then
          Search(acc', reqs', LastPage)
        else
          var r := Paginate(api, policy, pageSize, cap, acc', reqs', fuel - 1);
          assert r.requests[..|reqs|] == r.requests[..|reqs'|][..|reqs|];
          r
  }

  /** One turn of the loop that goes on: the request for the next page
      answered 200 and was not the last page. */
  lemma PaginateContinues(api: CatalogApi, policy: SizePolicy, pageSize: int, cap: Option<int>,
                          acc: seq<NbRecord>, reqs: seq<PageRequest>, fuel: nat)
    requires !CapReachedAt(cap, |acc|) && fuel != 0
    requires Continues(api(PageRequest(|reqs|, RequestSize(policy, pageSize, cap, |acc|))), |reqs|)
    ensures var req := PageRequest(|reqs|, RequestSize(policy, pageSize, cap, |acc|));
            Paginate(api, policy, pageSize, cap, acc, reqs, fuel)
            == Paginate(api, policy, pageSize, cap, TakeUntilCap(acc, api(req).items, cap), reqs + [req], fuel - 1)
  {
  }

  /** A successful request below the cap: if the records so far are the
      capped records of the earlier responses, then after the request they
      are the capped records of all responses. */
  lemma RecordsStep(api: CatalogApi, cap: Option<int>, acc: seq<NbRecord>, reqs: seq<PageRequest>, req: PageRequest)
    requires acc == Capped(Gathered(api, reqs), cap) && !CapReachedAt(cap, |acc|)
    requires api(req).status == 200
    ensures TakeUntilCap(acc, api(req).items, cap) == Capped(Gathered(api, reqs + [req]), cap)
  {
    CappedShort(Gathered(api, reqs), cap);
    GatheredSnoc(api, reqs, req);
    TakeUntilCapIsCapped(acc, api(req).items, cap);
  }

  /** A failed request adds no records: the records so far are still the
      capped records of all responses. */
  lemma RecordsFailedStep(api: CatalogApi, cap: Option<int>, acc: seq<NbRecord>, reqs: seq<PageRequest>, req: PageRequest)
    requires acc == Capped(Gathered(api, reqs), cap) && !CapReachedAt(cap, |acc|)
    requires api(req).status != 200
    ensures acc == Capped(Gathered(api, reqs + [req]), cap)
  {
    CappedShort(Gathered(api, reqs), cap);
    GatheredSnoc(api, reqs, req);
    assert Gathered(api, reqs + [req]) == Gathered(api, reqs);
  }

  /** The records are always the capped records of all responses so far:
      started from the capped records of `reqs`, the loop ends with the
      capped records of every request it made. */
  lemma {:induction false} PaginateRecords(api: CatalogApi, policy: SizePolicy, pageSize: int, cap: Option<int>,
                                          acc: seq<NbRecord>, reqs: seq<PageRequest>, fuel: nat)
    requires acc == Capped(Gathered(api, reqs), cap)
    ensures KeepsCapped(api, cap, Paginate(api, policy, pageSize, cap, acc, reqs, fuel))
    decreases fuel, 1
  {
    var req := PageRequest(|reqs|, RequestSize(policy, pageSize, cap, |acc|));
    if CapReachedAt(cap, |acc|) || fuel == 0 || !Continues(api(req), |reqs|) {
      RecordsAtEnd(api, policy, pageSize, cap, acc, reqs, fuel);
    } else {
      RecordsAfterStep(api, policy, pageSize, cap, acc, reqs, fuel, req);
    }
  }

  /** The records of a search are the capped records of its responses. */
  predicate KeepsCapped(api: CatalogApi, cap: Option<int>, r: Search)
  {
    r.records == Capped(Gathered(api, r.requests), cap)
  }

  /** `PaginateRecords` on a turn that asks for another page. */
  lemma {:induction false} RecordsAfterStep(api: CatalogApi, policy: SizePolicy, pageSize: int, cap: Option<int>,
                                            acc: seq<NbRecord>, reqs: seq<PageRequest>, fuel: nat, req: PageRequest)
    requires acc == Capped(Gathered(api, reqs), cap)
    requires req == PageRequest(|reqs|, RequestSize(policy, pageSize, cap, |acc|))
    requires !CapReachedAt(cap, |acc|) && fuel != 0 && Continues(api(req), |reqs|)
    ensures KeepsCapped(api, cap, Paginate(api, policy, pageSize, cap, acc, reqs, fuel))
    decreases fuel, 0
  {
    var next := TakeUntilCap(acc, api(req).items, cap);
    RecordsStep(api, cap, acc, reqs, req);
    PaginateRecords(api, policy, pageSize, cap, next, reqs + [req], fuel - 1);
    PaginateContinues(api, policy, pageSize, cap, acc, reqs, fuel);
  }

  /** `PaginateRecords` on the turn that ends the loop. */
  lemma RecordsAtEnd(api: CatalogApi, policy: SizePolicy, pageSize: int, cap: Option<int>,
                     acc: seq<NbRecord>, reqs: seq<PageRequest>, fuel: nat)
    requires acc == Capped(Gathered(api, reqs), cap)
    requires CapReachedAt(cap, |acc|) || fuel == 0
             || !Continues(api(PageRequest(|reqs|, RequestSize(policy, pageSize, cap, |acc|))), |reqs|)
    ensures KeepsCapped(api, cap, Paginate(api, policy, pageSize, cap, acc, reqs, fuel))
  {
    var req := PageRequest(|reqs|, RequestSize(policy, pageSize, cap, |acc|));
    PaginateEnds(api, policy, pageSize, cap, acc, reqs, fuel);
    if !CapReachedAt(cap, |acc|) && fuel != 0 {
      if api(req).status == 200 {
        RecordsStep(api, cap, acc, reqs, req);
      } else {
        RecordsFailedStep(api, cap, acc, reqs, req);
      }
    }
  }

  /** Every request from number `from` on but the last let the loop
      continue: it answered 200 and was not for the last page. */
  predicate ContinuedBefore(api: CatalogApi, from: nat, r: Search)
  {
    forall i :: from <= i < |r.requests| - 1 ==> Continues(api(r.requests[i]), i)
  }

  /** Every request but the last let the loop continue. */
  lemma {:induction false} PaginateContinuedBefore(api: CatalogApi, policy: SizePolicy, pageSize: int, cap: Option<int>,
                                                  acc: seq<NbRecord>, reqs: seq<PageRequest>, fuel: nat)
    ensures ContinuedBefore(api, |reqs|, Paginate(api, policy, pageSize, cap, acc, reqs, fuel))
    decreases fuel
  {
    var req := PageRequest(|reqs|, RequestSize(policy, pageSize, cap, |acc|));
    if CapReachedAt(cap, |acc|) || fuel == 0 || !Continues(api(req), |reqs|) {
      PaginateEnds(api, policy, pageSize, cap, acc, reqs, fuel);
    } else {
      PaginateContinuedBefore(api, policy, pageSize, cap, TakeUntilCap(acc, api(req).items, cap), reqs + [req], fuel - 1);
      ContinuedBeforeGoOn(api, policy, pageSize, cap, acc, reqs, fuel);
    }
  }

  /** `PaginateContinuedBefore` on a turn that goes on, given the property
      for the rest of the loop. */
  lemma ContinuedBeforeGoOn(api: CatalogApi, policy: SizePolicy, pageSize: int, cap: Option<int>,
                            acc: seq<NbRecord>, reqs: seq<PageRequest>, fuel: nat)
    requires !CapReachedAt(cap, |acc|) && fuel != 0
    requires Continues(api(PageRequest(|reqs|, RequestSize(policy, pageSize, cap, |acc|))), |reqs|)
    requires var req := PageRequest(|reqs|, RequestSize(policy, pageSize, cap, |acc|));
             ContinuedBefore(api, |reqs| + 1,
                             Paginate(api, policy, pageSize, cap, TakeUntilCap(acc, api(req).items, cap), reqs + [req], fuel - 1))
    ensures ContinuedBefore(api, |reqs|, Paginate(api, policy, pageSize, cap, acc, reqs, fuel))
  {
    var req := PageRequest(|reqs|, RequestSize(policy, pageSize, cap, |acc|));
    var reqs' := reqs + [req];
    PaginateContinues(api, policy, pageSize, cap, acc, reqs, fuel);
    var r := Paginate(api, policy, pageSize, cap, TakeUntilCap(acc, api(req).items, cap), reqs', fuel - 1);
    assert r.requests[|reqs|] == req by {
      assert r.requests[..|reqs'|] == reqs';
    }
  }

  /** What ended a loop that started at request number `from` with `fuel`
      requests left: a non-200 status or the last page on the final
      request, or the cap or the request bound before a further one, after
      a request that let it continue. */
  predicate StopExplained(api: CatalogApi, cap: Option<int>, from: nat, fuel: nat, r: Search)
  {
    var n := |r.requests|;
    && (r.stop.HttpError? ==>
          n > from && r.stop.status != 200 && api(r.requests[n - 1]).status == r.stop.status)
    && (r.stop.LastPage? ==>
          n > from && api(r.requests[n - 1]).status == 200 && n >= api(r.requests[n - 1]).totalPages)
    && ((r.stop.CapReached? || r.stop.OutOfFuel?) && n > from ==> Continues(api(r.requests[n - 1]), n - 1))
    && (r.stop.CapReached? ==> CapReachedAt(cap, |r.records|))
    && (r.stop.OutOfFuel? ==> n == from + fuel)
  }

  /** The stop reason says what ended the loop. */
  lemma {:induction false} PaginateStops(api: CatalogApi, policy: SizePolicy, pageSize: int, cap: Option<int>,
                                        acc: seq<NbRecord>, reqs: seq<PageRequest>, fuel: nat)
    ensures StopExplained(api, cap, |reqs|, fuel, Paginate(api, policy, pageSize, cap, acc, reqs, fuel))
    decreases fuel
  {
    var req := PageRequest(|reqs|, RequestSize(policy, pageSize, cap, |acc|));
    if CapReachedAt(cap, |acc|) || fuel == 0 || !Continues(api(req), |reqs|) {
      StopsAtEnd(api, policy, pageSize, cap, acc, reqs, fuel);
    } else {
      PaginateStops(api, policy, pageSize, cap, TakeUntilCap(acc, api(req).items, cap), reqs + [req], fuel - 1);
      StopsGoOn(api, policy, pageSize, cap, acc, reqs, fuel);
    }
  }

  /** `PaginateStops` on the turn that ends the loop. */
  lemma StopsAtEnd(api: CatalogApi, policy: SizePolicy, pageSize: int, cap: Option<int>,
                   acc: seq<NbRecord>, reqs: seq<PageRequest>, fuel: nat)
    requires CapReachedAt(cap, |acc|) || fuel == 0
             || !Continues(api(PageRequest(|reqs|, RequestSize(policy, pageSize, cap, |acc|))), |reqs|)
    ensures StopExplained(api, cap, |reqs|, fuel, Paginate(api, policy, pageSize, cap, acc, reqs, fuel))
  {
    PaginateEnds(api, policy, pageSize, cap, acc, reqs, fuel);
  }

  /** `PaginateStops` on a turn that goes on, given the property for the
      rest of the loop. */
  lemma StopsGoOn(api: CatalogApi, policy: SizePolicy, pageSize: int, cap: Option<int>,
                  acc: seq<NbRecord>, reqs: seq<PageRequest>, fuel: nat)
    requires !CapReachedAt(cap, |acc|) && fuel != 0
    requires Continues(api(PageRequest(|reqs|, RequestSize(policy, pageSize, cap, |acc|))), |reqs|)
    requires var req := PageRequest(|reqs|, RequestSize(policy, pageSize, cap, |acc|));
             StopExplained(api, cap, |reqs| + 1, fuel - 1,
                           Paginate(api, policy, pageSize, cap, TakeUntilCap(acc, api(req).items, cap), reqs + [req], fuel - 1))
    ensures StopExplained(api, cap, |reqs|, fuel, Paginate(api, policy, pageSize, cap, acc, reqs, fuel))
  {
    var req := PageRequest(|reqs|, RequestSize(policy, pageSize, cap, |acc|));
    var reqs' := reqs + [req];
    PaginateContinues(api, policy, pageSize, cap, acc, reqs, fuel);
    var r := Paginate(api, policy, pageSize, cap, TakeUntilCap(acc, api(req).items, cap), reqs', fuel - 1);
    if |r.requests| == |reqs'| {
      assert r.requests[|reqs|] == req by {
        assert r.requests[..|reqs'|] == reqs';
      }
    }
  }

  /** The turn of the loop that ends it: the cap was already reached, the
      request bound is used up, the next request failed, or it returned the
      last page. */
  lemma PaginateEnds(api: CatalogApi, policy: SizePolicy, pageSize: int, cap: Option<int>,
                     acc: seq<NbRecord>, reqs: seq<PageRequest>, fuel: nat)
    requires CapReachedAt(cap, |acc|) || fuel == 0
             || !Continues(api(PageRequest(|reqs|, RequestSize(policy, pageSize, cap, |acc|))), |reqs|)
    ensures var r := Paginate(api, policy, pageSize, cap, acc, reqs, fuel);
            var req := PageRequest(|reqs|, RequestSize(policy, pageSize, cap, |acc|));
            if CapReachedAt(cap, |acc|) then r == Search(acc, reqs, CapReached)
            else if fuel == 0 then r == Search(acc, reqs, OutOfFuel)
            else if api(req).status != 200 then r == Search(acc, reqs + [req], HttpError(api(req).status))
            else r == Search(TakeUntilCap(acc, api(req).items, cap), reqs + [req], LastPage)
  {
  }

  /** Every request from number `from` on asks for `size` items. */
  predicate SizesFrom(from: nat, size: int, r: Search)
  {
    forall i :: from <= i < |r.requests| ==> r.requests[i].size == size
  }

  /** Every request from number `from` on asks for the size the policy
      gives after the records kept before it: the capped records of the
      earlier responses. */
  predicate SizesFollow(api: CatalogApi, policy: SizePolicy, pageSize: int, cap: Option<int>, from: nat, r: Search)
  {
    forall i :: from <= i < |r.requests| ==>
      r.requests[i].size == RequestSize(policy, pageSize, cap, |Capped(Gathered(api, r.requests[..i]), cap)|)
  }

  /** Request `i` asks for `min(page_size, max_results - fetched)` (or
      `page_size`, under the other policy), where `fetched` counts the
      records kept from requests `0 .. i - 1`. */
  lemma {:induction false} PaginateSizesFollow(api: CatalogApi, policy: SizePolicy, pageSize: int, cap: Option<int>,
                                              acc: seq<NbRecord>, reqs: seq<PageRequest>, fuel: nat)
    requires acc == Capped(Gathered(api, reqs), cap)
    ensures SizesFollow(api, policy, pageSize, cap, |reqs|, Paginate(api, policy, pageSize, cap, acc, reqs, fuel))
    decreases fuel, 2
  {
    var req := PageRequest(|reqs|, RequestSize(policy, pageSize, cap, |acc|));
    if CapReachedAt(cap, |acc|) || fuel == 0 || !Continues(api(req), |reqs|) {
      SizesAtEnd(api, policy, pageSize, cap, acc, reqs, fuel, req);
    } else {
      SizesAfterStep(api, policy, pageSize, cap, acc, reqs, fuel, req);
    }
  }

  /** `PaginateSizesFollow` on the turn that ends the loop. */
  lemma SizesAtEnd(api: CatalogApi, policy: SizePolicy, pageSize: int, cap: Option<int>,
                   acc: seq<NbRecord>, reqs: seq<PageRequest>, fuel: nat, req: PageRequest)
    requires acc == Capped(Gathered(api, reqs), cap)
    requires req == PageRequest(|reqs|, RequestSize(policy, pageSize, cap, |acc|))
    requires CapReachedAt(cap, |acc|) || fuel == 0 || !Continues(api(req), |reqs|)
    ensures SizesFollow(api, policy, pageSize, cap, |reqs|, Paginate(api, policy, pageSize, cap, acc, reqs, fuel))
  {
    PaginateEnds(api, policy, pageSize, cap, acc, reqs, fuel);
    var r := Paginate(api, policy, pageSize, cap, acc, reqs, fuel);
    if |r.requests| > |reqs| {
      assert r.requests == reqs + [req];
      assert r.requests[..|reqs| + 1] == r.requests;
      SizeAfterPrefix(api, policy, pageSize, cap, acc, reqs, req, r.requests);
    }
  }

  /** `PaginateSizesFollow` on a turn that asks for another page. */
  lemma {:induction false} SizesAfterStep(api: CatalogApi, policy: SizePolicy, pageSize: int, cap: Option<int>,
                                          acc: seq<NbRecord>, reqs: seq<PageRequest>, fuel: nat, req: PageRequest)
    requires acc == Capped(Gathered(api, reqs), cap)
    requires req == PageRequest(|reqs|, RequestSize(policy, pageSize, cap, |acc|))
    requires !CapReachedAt(cap, |acc|) && fuel != 0 && Continues(api(req), |reqs|)
    ensures SizesFollow(api, policy, pageSize, cap, |reqs|, Paginate(api, policy, pageSize, cap, acc, reqs, fuel))
    decreases fuel, 1
  {
    var r := Paginate(api, policy, pageSize, cap, TakeUntilCap(acc, api(req).items, cap), reqs + [req], fuel - 1);
    SizesOfNextTurn(api, policy, pageSize, cap, acc, reqs, fuel, req);
    SizesExtend(api, policy, pageSize, cap, acc, reqs, req, r);
    PaginateContinues(api, policy, pageSize, cap, acc, reqs, fuel);
  }

  /** The search that goes on after `req` follows the sizes from `|reqs| + 1` on. */
  lemma {:induction false} SizesOfNextTurn(api: CatalogApi, policy: SizePolicy, pageSize: int, cap: Option<int>,
                                           acc: seq<NbRecord>, reqs: seq<PageRequest>, fuel: nat, req: PageRequest)
    requires acc == Capped(Gathered(api, reqs), cap)
    requires req == PageRequest(|reqs|, RequestSize(policy, pageSize, cap, |acc|))
    requires !CapReachedAt(cap, |acc|) && fuel != 0 && Continues(api(req), |reqs|)
    ensures SizesFollow(api, policy, pageSize, cap, |reqs + [req]|,
                        Paginate(api, policy, pageSize, cap, TakeUntilCap(acc, api(req).items, cap), reqs + [req], fuel - 1))
    decreases fuel, 0
  {
    RecordsStep(api, cap, acc, reqs, req);
    PaginateSizesFollow(api, policy, pageSize, cap, TakeUntilCap(acc, api(req).items, cap), reqs + [req], fuel - 1);
  }

  /** A search that begins with `reqs` and then `req`, where `req` asks for
      the size due after `reqs`, follows the sizes from `|reqs|` on when it
      does so from `|reqs| + 1` on. */
  lemma SizesExtend(api: CatalogApi, policy: SizePolicy, pageSize: int, cap: Option<int>,
                    acc: seq<NbRecord>, reqs: seq<PageRequest>, req: PageRequest, r: Search)
    requires acc == Capped(Gathered(api, reqs), cap)
    requires req.size == RequestSize(policy, pageSize, cap, |acc|)
    requires |reqs + [req]| <= |r.requests| && r.requests[..|reqs + [req]|] == reqs + [req]
    requires SizesFollow(api, policy, pageSize, cap, |reqs + [req]|, r)
    ensures SizesFollow(api, policy, pageSize, cap, |reqs|, r)
  {
    var k := |reqs|;
    assert |reqs + [req]| == k + 1;
    forall i | k <= i < |r.requests|
      ensures r.requests[i].size == RequestSize(policy, pageSize, cap, |Capped(Gathered(api, r.requests[..i]), cap)|)
    {
      if i == k {
        SizeAfterPrefix(api, policy, pageSize, cap, acc, reqs, req, r.requests);
      }
    }
  }

  /** The request after the prefix `reqs` asks for the size due after `reqs`. */
  lemma SizeAfterPrefix(api: CatalogApi, policy: SizePolicy, pageSize: int, cap: Option<int>,
                        acc: seq<NbRecord>, reqs: seq<PageRequest>, req: PageRequest, rs: seq<PageRequest>)
    requires acc == Capped(Gathered(api, reqs), cap)
    requires req.size == RequestSize(policy, pageSize, cap, |acc|)
    requires |reqs| < |rs| && rs[..|reqs| + 1] == reqs + [req]
    ensures rs[|reqs|].size == RequestSize(policy, pageSize, cap, |Capped(Gathered(api, rs[..|reqs|]), cap)|)
  {
    TakeSnocPrefix(reqs, req, rs);
  }

  /** A sequence that starts with `a + [x]` has `a` before position `|a|`
      and `x` at it. */
  lemma TakeSnocPrefix<T>(a: seq<T>, x: T, rs: seq<T>)
    requires |a| < |rs| && rs[..|a| + 1] == a + [x]
    ensures rs[..|a|] == a && rs[|a|] == x
  {
  }

  /** With `KeepPageSize` every request asks for `page_size` items. */
  lemma {:induction false} PaginateSizes(api: CatalogApi, pageSize: int, cap: Option<int>,
                                        acc: seq<NbRecord>, reqs: seq<PageRequest>, fuel: nat)
    ensures SizesFrom(|reqs|, pageSize, Paginate(api, KeepPageSize, pageSize, cap, acc, reqs, fuel))
    decreases fuel
  {
    var req := PageRequest(|reqs|, pageSize);
    if CapReachedAt(cap, |acc|) || fuel == 0 || !Continues(api(req), |reqs|) {
      PaginateEnds(api, KeepPageSize, pageSize, cap, acc, reqs, fuel);
    } else {
      PaginateSizes(api, pageSize, cap, TakeUntilCap(acc, api(req).items, cap), reqs + [req], fuel - 1);
      SizesGoOn(api, pageSize, cap, acc, reqs, fuel);
    }
  }

  /** `PaginateSizes` on a turn that goes on, given the property for the
      rest of the loop. */
  lemma SizesGoOn(api: CatalogApi, pageSize: int, cap: Option<int>,
                  acc: seq<NbRecord>, reqs: seq<PageRequest>, fuel: nat)
    requires !CapReachedAt(cap, |acc|) && fuel != 0
    requires Continues(api(PageRequest(|reqs|, pageSize)), |reqs|)
    requires var req := PageRequest(|reqs|, pageSize);
             SizesFrom(|reqs| + 1, pageSize,
                       Paginate(api, KeepPageSize, pageSize, cap, TakeUntilCap(acc, api(req).items, cap), reqs + [req], fuel - 1))
    ensures SizesFrom(|reqs|, pageSize, Paginate(api, KeepPageSize, pageSize, cap, acc, reqs, fuel))
  {
    var req := PageRequest(|reqs|, pageSize);
    var reqs' := reqs + [req];
    PaginateContinues(api, KeepPageSize, pageSize, cap, acc, reqs, fuel);
    var r := Paginate(api, KeepPageSize, pageSize, cap, TakeUntilCap(acc, api(req).items, cap), reqs', fuel - 1);
    assert r.requests[|reqs|] == req by {
      assert r.requests[..|reqs'|] == reqs';
    }
  }

  /** `search_nb_images` as written: pages from 0, request size shrunk to the
      number of records still wanted. The number of records never exceeds
      `max_results`, pages are requested in order from 0, and the records are
      the capped records of the responses. */
  function SearchPagesAsWritten(api: CatalogApi, pageSize: int, cap: Option<int>, fuel: nat): (r: Search)
    ensures cap.Some? ==> |r.records| <= Max(cap.value, 0)
    ensures forall i :: 0 <= i < |r.requests| ==> r.requests[i].page == i
    ensures r.records == Capped(Gathered(api, r.requests), cap)
    ensures forall i :: 0 <= i < |r.requests| ==>
              r.requests[i].size == RequestSize(ShrinkToRemaining, pageSize, cap, |Capped(Gathered(api, r.requests[..i]), cap)|)
  {
    PaginateRecords(api, ShrinkToRemaining, pageSize, cap, [], [], fuel);
    PaginateSizesFollow(api, ShrinkToRemaining, pageSize, cap, [], [], fuel);
    Paginate(api, ShrinkToRemaining, pageSize, cap, [], [], fuel)
  }

  /** Pagination with every request asking for `page_size` items. Same
      guarantees as the script, and additionally every request has the
      same size. */
  function SearchPages(api: CatalogApi, pageSize: int, cap: Option<int>, fuel: nat): (r: Search)
    ensures cap.Some? ==> |r.records| <= Max(cap.value, 0)
    ensures forall i :: 0 <= i < |r.requests| ==> r.requests[i] == PageRequest(i, pageSize)
    ensures r.records == Capped(Gathered(api, r.requests), cap)
  {
    PaginateSizes(api, pageSize, cap, [], [], fuel);
    PaginateRecords(api, KeepPageSize, pageSize, cap, [], [], fuel);
    Paginate(api, KeepPageSize, pageSize, cap, [], [], fuel)
  }

  /** A failed request ends the search but keeps the records of the pages
      before it: exactly the capped records of the earlier responses, all
      of which were 200. This holds whichever size the requests ask for. */
  lemma HttpErrorKeepsEarlierPages(api: CatalogApi, policy: SizePolicy, pageSize: int, cap: Option<int>, fuel: nat)
    requires Paginate(api, policy, pageSize, cap, [], [], fuel).stop.HttpError?
    ensures var r := Paginate(api, policy, pageSize, cap, [], [], fuel);
            var n := |r.requests|;
            n >= 1 && api(r.requests[n - 1]).status != 200
            && r.records == Capped(Gathered(api, r.requests[..n - 1]), cap)
            && forall i :: 0 <= i < n - 1 ==> api(r.requests[i]).status == 200
  {
    var r := Paginate(api, policy, pageSize, cap, [], [], fuel);
    var n := |r.requests|;
    PaginateStops(api, policy, pageSize, cap, [], [], fuel);
    PaginateContinuedBefore(api, policy, pageSize, cap, [], [], fuel);
    PaginateRecords(api, policy, pageSize, cap, [], [], fuel);
    assert r.requests[..n - 1] + [r.requests[n - 1]] == r.requests;
    GatheredSnoc(api, r.requests[..n - 1], r.requests[n - 1]);
  }

  /** The search as written keeps the pages before a failed request. */
  lemma HttpErrorAsWritten(api: CatalogApi, pageSize: int, cap: Option<int>, fuel: nat)
    requires SearchPagesAsWritten(api, pageSize, cap, fuel).stop.HttpError?
    ensures var r := SearchPagesAsWritten(api, pageSize, cap, fuel);
            var n := |r.requests|;
            n >= 1 && api(r.requests[n - 1]).status != 200
            && r.records == Capped(Gathered(api, r.requests[..n - 1]), cap)
  {
    HttpErrorKeepsEarlierPages(api, ShrinkToRemaining, pageSize, cap, fuel);
  }

  /** The search with fixed pages keeps the pages before a failed request. */
  lemma HttpErrorFixedPages(api: CatalogApi, pageSize: int, cap: Option<int>, fuel: nat)
    requires SearchPages(api, pageSize, cap, fuel).stop.HttpError?
    ensures var r := SearchPages(api, pageSize, cap, fuel);
            var n := |r.requests|;
            n >= 1 && api(r.requests[n - 1]).status != 200
            && r.records == Capped(Gathered(api, r.requests[..n - 1]), cap)
  {
    HttpErrorKeepsEarlierPages(api, KeepPageSize, pageSize, cap, fuel);
  }

  // ---------------------------------------------------------------------------
  // Splitting the geographic name
  // ---------------------------------------------------------------------------

  /** The characters of the class `[;:,? &]`. */
  const GeoDelimiters: set<char> := {';', ':', ',', '?', ' ', '&'}

  /** A spreadsheet row before coordinates: Land, Fylke and Kommune are
      tokens 0, 1 and 2 of the geographic name, and `steder` the pieces
      Kommune is split into again (the `Sted_i` columns). */
  datatype NbRow = NbRow(
    thumbnail: Option<string>, title: Option<string>,
    land: Option<string>, fylke: Option<string>, kommune: Option<string>,
    steder: seq<string>)

  /** Token `i`, or `None` past the end. */
  function Slot(tokens: seq<string>, i: nat): Option<string>
  {
    if i < |tokens| then Some(tokens[i]) else None
  }

  /** The tokens of `re.split('[;:,? &]+', g)`. */
  function GeoTokens(g: string): seq<string>
  {
    SplitRuns(g, GeoDelimiters)
  }

  /** The row for one record. Land always exists; a position the name does
      not reach is `None`, and tokens past the third are dropped; no
      positional field contains a delimiter. Kommune has no delimiter, so
      splitting it again gives exactly one piece, Kommune itself. */
  function SplitRecord(rec: NbRecord): (row: NbRow)
    ensures row.thumbnail == rec.thumbnail && row.title == rec.title
    ensures row.land.Some?
    ensures row.fylke.Some? <==> |GeoTokens(rec.geographics)| >= 2
    ensures row.kommune.Some? <==> |GeoTokens(rec.geographics)| >= 3
    ensures row.land.Some? ==> Avoids(row.land.value, GeoDelimiters)
    ensures row.fylke.Some? ==> Avoids(row.fylke.value, GeoDelimiters)
    ensures row.kommune.Some? ==> Avoids(row.kommune.value, GeoDelimiters)
    ensures row.kommune.Some? ==> row.steder == [row.kommune.value]
    ensures row.kommune.None? ==> row.steder == []
  {
    var tokens := GeoTokens(rec.geographics);
    var kommune := Slot(tokens, 2);
    var steder := if kommune.Some? then SplitAt(kommune.value, GeoDelimiters) else [];
    assert kommune.Some? ==> steder == [kommune.value] by {
      if kommune.Some? {
        SplitAtOfFree(kommune.value, GeoDelimiters);
      }
    }
    NbRow(rec.thumbnail, rec.title, Slot(tokens, 0), Slot(tokens, 1), kommune, steder)
  }

  /** A name written as levels separated by runs of delimiters is split
      back into those levels: "Norge;Trøndelag;Steinkjer;Vakkerlifjellet"
      and "Norge, Trøndelag, Steinkjer" both give Land "Norge", Fylke
      "Trøndelag" and Kommune "Steinkjer". */
  lemma LevelsRoundTrip(rec: NbRecord, levels: seq<string>, seps: seq<string>)
    requires |levels| >= 1 && |seps| == |levels| - 1
    requires forall i :: 0 <= i < |levels| ==> levels[i] != [] && Avoids(levels[i], GeoDelimiters)
    requires forall i :: 0 <= i < |seps| ==> DelimiterRun(seps[i], GeoDelimiters)
    requires rec.geographics == JoinRuns(levels, seps)
    ensures SplitRecord(rec).land == Some(levels[0])
    ensures SplitRecord(rec).fylke == Slot(levels, 1)
    ensures SplitRecord(rec).kommune == Slot(levels, 2)
  {
    SplitRunsJoinRuns(levels, seps, GeoDelimiters);
  }

  /** "Land, Fylke, Kommune" with a comma and a space between the levels
      is one delimiter run per gap, so the levels land in their columns. */
  lemma CommaSpaceLevels(rec: NbRecord, land: string, fylke: string, kommune: string)
    requires forall level :: level in [land, fylke, kommune] ==> level != [] && Avoids(level, GeoDelimiters)
    requires rec.geographics == land + ", " + fylke + ", " + kommune
    ensures SplitRecord(rec).land == Some(land)
    ensures SplitRecord(rec).fylke == Some(fylke)
    ensures SplitRecord(rec).kommune == Some(kommune)
  {
    var levels, seps := [land, fylke, kommune], [", ", ", "];
    assert forall i :: 0 <= i < |levels| ==> levels[i] in levels;
    assert forall i :: 0 <= i < |seps| ==> DelimiterRun(seps[i], GeoDelimiters);
    assert JoinRuns(levels[2..], seps[2..]) == kommune;
    assert JoinRuns(levels[1..], seps[1..]) == fylke + ", " + kommune;
    assert JoinRuns(levels, seps) == land + ", " + (fylke + ", " + kommune);
    LevelsRoundTrip(rec, levels, seps);
  }

  /** The number of `Sted_i` columns the re-split of Kommune creates. */
  function StedColumns(rows: seq<NbRow>): nat
  {
    if rows == [] then 0 else Max(|rows[0].steder|, StedColumns(rows[1..]))
  }

  /** Rows that each re-split Kommune into at most one piece create at most
      one `Sted_i` column. */
  lemma {:induction false} StedColumnsAtMostOne(rows: seq<NbRow>)
    requires forall i :: 0 <= i < |rows| ==> |rows[i].steder| <= 1
    ensures StedColumns(rows) <= 1
    decreases |rows|
  {
    if rows != [] {
      assert forall i :: 0 <= i < |rows[1..]| ==> rows[1..][i] == rows[i + 1];
      StedColumnsAtMostOne(rows[1..]);
    }
  }

  /** Row `i` of the table is the row of record `i`. */
  lemma SplitTableRow(recs: seq<NbRecord>, i: nat)
    requires i < |recs|
    ensures SplitTable(recs)[i] == SplitRecord(recs[i])
  {
  }

  /** At most one `Sted_i` column ever exists, and `Sted_1` is Kommune. */
  lemma OnlyStedOne(recs: seq<NbRecord>)
    ensures StedColumns(SplitTable(recs)) <= 1
    ensures forall i :: 0 <= i < |recs| ==> Slot(SplitTable(recs)[i].steder, 0) == SplitTable(recs)[i].kommune
  {
    var rows := SplitTable(recs);
    forall i | 0 <= i < |recs|
      ensures |rows[i].steder| <= 1 && Slot(rows[i].steder, 0) == rows[i].kommune
    {
      SplitTableRow(recs, i);
    }
    StedColumnsAtMostOne(rows);
  }

  /** The rows of a record list: one per record, in order. An empty list
      gives no rows, and a short name gives `None` positions whatever the
      other records hold. */
  function SplitTable(recs: seq<NbRecord>): (rows: seq<NbRow>)
    ensures |rows| == |recs|
    ensures forall i :: 0 <= i < |recs| ==>
              rows[i].thumbnail == recs[i].thumbnail && rows[i].title == recs[i].title
    ensures forall i :: 0 <= i < |recs| ==>
              (rows[i].kommune.None? <==> |GeoTokens(recs[i].geographics)| < 3)
  {
    seq(|recs|, i requires 0 <= i < |recs| => SplitRecord(recs[i]))
  }

  /** An error `pandas` raises while building the frame. */
  datatype FrameError = MissingColumn(column: string) | MissingPosition(index: nat)

  /** The most tokens any record's name splits into. */
  function MaxTokens(recs: seq<NbRecord>): nat
  {
    if recs == [] then 0 else Max(|GeoTokens(recs[0].geographics)|, MaxTokens(recs[1..]))
  }

  /** The frame steps of `search_nb_images` as written. An empty record list
      makes a frame without columns, so selecting `geographics` fails; and
      `expand=True` makes only as many columns as the longest name has
      tokens, so selecting position 1 or 2 fails unless some name reaches
      it. */
  function SplitTableAsWritten(recs: seq<NbRecord>): (r: Result<seq<NbRow>, FrameError>)
    ensures recs == [] ==> r == Failure(MissingColumn("geographics"))
    ensures r.Success? <==> MaxTokens(recs) >= 3
    ensures r.Success? ==> r.value == SplitTable(recs)
  {
    if recs == [] then Failure(MissingColumn("geographics"))
    else if MaxTokens(recs) < 2 then Failure(MissingPosition(1))
    else if MaxTokens(recs) < 3 then Failure(MissingPosition(2))
    else Success(SplitTable(recs))
  }

  /** Finding: a search that keeps no item raises instead of returning an
      empty table, which the caller would report as "no results". */
  lemma EmptySearchRaises()
    ensures SplitTableAsWritten([]).Failure?
    ensures SplitTable([]) == []
  {
  }

  /** Finding: when no name has three tokens, the script raises instead of
      leaving Kommune empty. A single record named with two levels, such as
      "Norge;Trøndelag", is enough; the corrected split gives its Land and
      Fylke and leaves Kommune `None`. */
  lemma ShortNamesRaise(rec: NbRecord, land: string, fylke: string)
    requires land != [] && Avoids(land, GeoDelimiters)
    requires fylke != [] && Avoids(fylke, GeoDelimiters)
    requires rec.geographics == Join([land, fylke], ';')
    ensures SplitTableAsWritten([rec]) == Failure(MissingPosition(2))
    ensures SplitTable([rec]) == [NbRow(rec.thumbnail, rec.title, Some(land), Some(fylke), None, [])]
  {
    SplitRunsJoin([land, fylke], ';', GeoDelimiters);
    assert MaxTokens([rec]) == 2 by {
      assert [rec][1..] == [];
    }
    assert SplitTable([rec])[0] == SplitRecord(rec);
  }

  // ---------------------------------------------------------------------------
  // The whole search
  // ---------------------------------------------------------------------------

  /** `search_nb_images` as written, page sizes and frame errors included:
      it returns a table exactly when some kept record's name has three
      tokens, and then the table has one row per kept record, at most
      `max_results` of them; a search that keeps nothing fails. */
  function SearchNbImagesAsWritten(api: CatalogApi, pageSize: int, cap: Option<int>, fuel: nat): (r: Result<seq<NbRow>, FrameError>)
    ensures var recs := SearchPagesAsWritten(api, pageSize, cap, fuel).records;
            && (r.Success? <==> MaxTokens(recs) >= 3)
            && (recs == [] ==> r.Failure?)
            && (r.Success? ==> r.value == SplitTable(recs) && |r.value| == |recs|)
    ensures r.Success? && cap.Some? ==> |r.value| <= Max(cap.value, 0)
  {
    SplitTableAsWritten(SearchPagesAsWritten(api, pageSize, cap, fuel).records)
  }

  /** `search_nb_images` with both corrections: a fixed page size and a
      split that never fails. One row per kept record, in order, never more
      than `max_results`. */
  function SearchNbImages(api: CatalogApi, pageSize: int, cap: Option<int>, fuel: nat): (rows: seq<NbRow>)
    ensures cap.Some? ==> |rows| <= Max(cap.value, 0)
    ensures var recs := SearchPages(api, pageSize, cap, fuel).records;
            |rows| == |recs| && forall i :: 0 <= i < |recs| ==> rows[i] == SplitRecord(recs[i])
  {
    SplitTable(SearchPages(api, pageSize, cap, fuel).records)
  }
}
