/** The image catalog's search API as the scripts see it: one response per
    requested page. The HTTP transport is replaced by a pure function from
    request to response, so a "request" is an application of that function. */
module Catalog {
  import opened Wrappers

  /** One entry of `_embedded.items`. Each `None` is a key the JSON lacks. */
  datatype CatalogItem = CatalogItem(
    thumbnailCustom: Option<string>,    // _links.thumbnail_custom.href
    thumbnailMedium: Option<string>,    // _links.thumbnail_medium.href
    title: Option<string>,              // metadata.title
    placeString: Option<string>,        // metadata.geographic.placeString
    geographics: Option<seq<string>>)   // metadata.subject.geographics

  /** An HTTP response: its status, and for a JSON body the page's items and
      the reported `page.totalPages`. */
  datatype Response = Response(status: int, items: seq<CatalogItem>, totalPages: int)

  /** The varying query parameters of one request (`page`, `size`); the query
      term and the `mediatype:bilder` filter are fixed for a whole search. */
  datatype PageRequest = PageRequest(page: int, size: int)

  /** The catalog for one query term and filter. */
  type CatalogApi = PageRequest -> Response
}
