/** `hent_data_fra_norge_i_bilder` of the geodatabase script: page through
    the catalog from page 1 in pages of 100, keep every item, and combine its
    place string and subject geographics into one comma-separated `stedinfo`. */
module GdbFetch {
  import opened Wrappers
  import opened Text
  import opened Catalog

  /** One row of the fetched table. */
  datatype GeoRecord = GeoRecord(thumbnailMedium: Option<string>, title: Option<string>, stedinfo: string)

  // ---------------------------------------------------------------------------
  // stedinfo
  // ---------------------------------------------------------------------------

  /** `';'.join(geographics)`, or empty when the list is missing or empty. */
  function GeographicsText(item: CatalogItem): string
  {
    Join(item.geographics.GetOr([]), ';')
  }

  /** `f"{place_string};{geographics}".replace(';', ',')`: a missing place
      string counts as empty. The result has no `;` and one character more
      than its two parts. */
  function StedInfo(item: CatalogItem): (info: string)
    ensures ';' !in info
    ensures |info| == |item.placeString.GetOr("")| + 1 + |GeographicsText(item)|
  {
    ReplaceChar(item.placeString.GetOr("") + ";" + GeographicsText(item), ';', ',')
  }

  /** Replacing one character distributes over concatenation. */
  lemma ReplaceCharAppend(a: string, b: string, from: char, to: char)
    ensures ReplaceChar(a + b, from, to) == ReplaceChar(a, from, to) + ReplaceChar(b, from, to)
  {
    var l := ReplaceChar(a + b, from, to);
    var r := ReplaceChar(a, from, to) + ReplaceChar(b, from, to);
    assert |l| == |r|;
    forall i | 0 <= i < |l|
      ensures l[i] == r[i]
    {
      if i < |a| {
        assert (a + b)[i] == a[i];
      } else {
        assert (a + b)[i] == b[i - |a|];
      }
    }
  }

  /** Replacing the separator of a join by another joins the replaced
      parts with the other. */
  lemma {:induction false} ReplaceCharJoin(parts: seq<string>, from: char, to: char)
    ensures ReplaceChar(Join(parts, from), from, to) == Join(ReplacedParts(parts, from, to), to)
    decreases |parts|
  {
    if |parts| > 1 {
      ReplaceCharJoin(parts[1..], from, to);
      ReplaceCharAppend(parts[0] + [from], Join(parts[1..], from), from, to);
      ReplaceCharAppend(parts[0], [from], from, to);
      assert ReplacedParts(parts, from, to)[1..] == ReplacedParts(parts[1..], from, to);
    }
  }

  /** Every part with `from` replaced by `to`. */
  function ReplacedParts(parts: seq<string>, from: char, to: char): (r: seq<string>)
    ensures |r| == |parts|
    ensures forall i :: 0 <= i < |parts| ==> r[i] == ReplaceChar(parts[i], from, to)
  {
    seq(|parts|, i requires 0 <= i < |parts| => ReplaceChar(parts[i], from, to))
  }

  /** `stedinfo` is the place string with `;` turned into `,`, then `,`,
      then the subject geographics (each with `;` turned into `,`) joined
      by `,`. */
  lemma StedInfoParts(item: CatalogItem)
    ensures StedInfo(item)
            == ReplaceChar(item.placeString.GetOr(""), ';', ',') + ","
               + Join(ReplacedParts(item.geographics.GetOr([]), ';', ','), ',')
  {
    var ps := item.placeString.GetOr("");
    ReplaceCharAppend(ps + ";", GeographicsText(item), ';', ',');
    ReplaceCharAppend(ps, ";", ';', ',');
    ReplaceCharJoin(item.geographics.GetOr([]), ';', ',');
  }

  /** The row kept for an item: every item gives one. */
  function ToGeoRecord(item: CatalogItem): GeoRecord
  {
    GeoRecord(item.thumbnailMedium, item.title, StedInfo(item))
  }

  // ---------------------------------------------------------------------------
  // Pagination
  // ---------------------------------------------------------------------------

  /** The page size the script always asks for. */
  const GeoPageSize := 100

  /** The rows kept, and the requests made in order. */
  datatype Fetch = Fetch(records: seq<GeoRecord>, requests: seq<PageRequest>)

  /** The rows one response gives: one per item when the status is 200,
      none otherwise. */
  function PageGeoRecords(resp: Response): (rs: seq<GeoRecord>)
    ensures resp.status == 200 ==> |rs| == |resp.items|
    ensures resp.status == 200 ==> forall i :: 0 <= i < |rs| ==> rs[i] == ToGeoRecord(resp.items[i])
    ensures resp.status != 200 ==> rs == []
  {
    if resp.status == 200 then seq(|resp.items|, i requires 0 <= i < |resp.items| => ToGeoRecord(resp.items[i]))
    else []
  }

  /** The rows of all responses to `reqs`, in request order. */
  function FetchedRecords(api: CatalogApi, reqs: seq<PageRequest>): seq<GeoRecord>
  {
    if reqs == [] then [] else PageGeoRecords(api(reqs[0])) + FetchedRecords(api, reqs[1..])
  }

  /** The response to the request for `page` lets the loop go on. */
  predicate GoesOn(resp: Response, page: int, maxSider: int)
  {
    resp.status == 200 && page < resp.totalPages && page < maxSider
  }

  /** The loop from page `page` on. The requests ask for consecutive pages
      from `page`, of 100 items each, never past page `max_sider` (one
      request is always made), and the rows are those of the responses. */
  function FetchFrom(api: CatalogApi, maxSider: int, page: int): (r: Fetch)
    ensures |r.requests| >= 1
    ensures forall i :: 0 <= i < |r.requests| ==> r.requests[i] == PageRequest(page + i, GeoPageSize)
    ensures page + |r.requests| - 1 <= Max(page, maxSider)
    decreases maxSider - page
  {
    var req := PageRequest(page, GeoPageSize);
    var resp := api(req);
    if GoesOn(resp, page, maxSider) then
      var rest := FetchFrom(api, maxSider, page + 1);
      assert ([req] + rest.requests)[1..] == rest.requests;
      Fetch(PageGeoRecords(resp) + rest.records, [req] + rest.requests)
    else
      Fetch(PageGeoRecords(resp), [req])
  }

  /** One turn of the loop: the request for `page`, then either the rest of
      the loop or the end. */
  lemma FetchUnfolds(api: CatalogApi, maxSider: int, page: int)
    ensures var req := PageRequest(page, GeoPageSize);
            var r := FetchFrom(api, maxSider, page);
            var resp := api(req);
            if GoesOn(resp, page, maxSider) then
              var rest := FetchFrom(api, maxSider, page + 1);
              r == Fetch(PageGeoRecords(resp) + rest.records, [req] + rest.requests)
            else
              r == Fetch(PageGeoRecords(resp), [req])
  {
  }

  /** The rows are those of the responses to the requests made. */
  lemma {:induction false} FetchRecords(api: CatalogApi, maxSider: int, page: int)
    ensures var r := FetchFrom(api, maxSider, page);
            r.records == FetchedRecords(api, r.requests)
    decreases maxSider - page
  {
    FetchUnfolds(api, maxSider, page);
    if GoesOn(api(PageRequest(page, GeoPageSize)), page, maxSider) {
      FetchRecords(api, maxSider, page + 1);
    }
  }

  /** Requests numbered from `page`: every one but the last let the loop go
      on, and the last did not. */
  predicate StopsAtLast(api: CatalogApi, maxSider: int, page: int, reqs: seq<PageRequest>)
  {
    && |reqs| >= 1
    && (forall i :: 0 <= i < |reqs| - 1 ==> GoesOn(api(reqs[i]), page + i, maxSider))
    && !GoesOn(api(reqs[|reqs| - 1]), page + |reqs| - 1, maxSider)
  }

  /** A request that lets the loop go on, in front of requests that stop
      at their last. */
  lemma StopsAtLastCons(api: CatalogApi, maxSider: int, page: int, req: PageRequest, rest: seq<PageRequest>)
    requires GoesOn(api(req), page, maxSider)
    requires StopsAtLast(api, maxSider, page + 1, rest)
    ensures StopsAtLast(api, maxSider, page, [req] + rest)
  {
    var all := [req] + rest;
    assert forall i :: 1 <= i < |all| ==> all[i] == rest[i - 1];
  }

  /** Every request but the last let the loop go on, and the last did not:
      it failed, or its page was the last one or page `max_sider`. */
  lemma {:induction false} FetchStops(api: CatalogApi, maxSider: int, page: int)
    ensures StopsAtLast(api, maxSider, page, FetchFrom(api, maxSider, page).requests)
    decreases maxSider - page
  {
    FetchUnfolds(api, maxSider, page);
    var req := PageRequest(page, GeoPageSize);
    if GoesOn(api(req), page, maxSider) {
      FetchStops(api, maxSider, page + 1);
      StopsAtLastCons(api, maxSider, page, req, FetchFrom(api, maxSider, page + 1).requests);
    }
  }

  /** The whole fetch: pages 1, 2, ... */
  function HentData(api: CatalogApi, maxSider: int): (r: Fetch)
    ensures |r.requests| >= 1
    ensures forall i :: 0 <= i < |r.requests| ==> r.requests[i] == PageRequest(1 + i, GeoPageSize)
    ensures |r.requests| <= Max(1, maxSider)
    ensures r.records == FetchedRecords(api, r.requests)
  {
    FetchRecords(api, maxSider, 1);
    FetchFrom(api, maxSider, 1)
  }

  /** The rows of requests made one after another are those of the first
      followed by those of the rest. */
  lemma {:induction false} FetchedRecordsAppend(api: CatalogApi, a: seq<PageRequest>, b: seq<PageRequest>)
    ensures FetchedRecords(api, a + b) == FetchedRecords(api, a) + FetchedRecords(api, b)
    decreases |a|
  {
    if a == [] {
      assert a + b == b;
    } else {
      assert (a + b)[0] == a[0] && (a + b)[1..] == a[1..] + b;
      FetchedRecordsAppend(api, a[1..], b);
    }
  }

  /** A failed request ends the fetch and keeps the rows of every earlier
      page, one row per item. */
  lemma FailureKeepsEarlierPages(api: CatalogApi, maxSider: int)
    requires var r := HentData(api, maxSider); api(r.requests[|r.requests| - 1]).status != 200
    ensures var r := HentData(api, maxSider);
            var n := |r.requests|;
            && (forall i :: 0 <= i < n - 1 ==> api(r.requests[i]).status == 200)
            && r.records == FetchedRecords(api, r.requests[..n - 1])
  {
    var r := HentData(api, maxSider);
    EarlierPagesAnswered(api, maxSider);
    FailedLastAddsNothing(api, r.requests);
  }

  /** Every request of the fetch but the last got 200. */
  lemma EarlierPagesAnswered(api: CatalogApi, maxSider: int)
    ensures var r := HentData(api, maxSider);
            forall i :: 0 <= i < |r.requests| - 1 ==> api(r.requests[i]).status == 200
  {
    FetchStops(api, maxSider, 1);
  }

  /** A last request that failed adds no rows. */
  lemma FailedLastAddsNothing(api: CatalogApi, reqs: seq<PageRequest>)
    requires |reqs| >= 1 && api(reqs[|reqs| - 1]).status != 200
    ensures FetchedRecords(api, reqs) == FetchedRecords(api, reqs[..|reqs| - 1])
  {
    var n := |reqs|;
    assert reqs == reqs[..n - 1] + [reqs[n - 1]];
    FetchedRecordsAppend(api, reqs[..n - 1], [reqs[n - 1]]);
  }
}
