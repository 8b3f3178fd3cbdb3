/** The national place-name lookup service (`/stedsnavn/v1/sted`) as the
    scripts see it: a pure function from query parameters to reply. */
module PlaceLookup {
  import opened Wrappers

  /** Coordinates are plain numbers here: nothing computes with them. */
  type Coord = real

  /** `representasjonspunkt`, with `nord` and `øst` each possibly absent. */
  datatype Point = Point(north: Option<Coord>, east: Option<Coord>)

  /** One entry of `navn`: its `navneobjekttype` and `representasjonspunkt`. */
  datatype PlaceName = PlaceName(category: Option<string>, point: Option<Point>)

  /** The JSON body: `metadata.totaltAntallTreff` and `navn`. */
  datatype LookupBody = LookupBody(totalHits: Option<int>, names: Option<seq<PlaceName>>)

  /** An HTTP reply; `body` is `None` when it does not decode as JSON. */
  datatype LookupReply = LookupReply(status: int, body: Option<LookupBody>)

  /** The query parameters both scripts send. */
  datatype LookupParams = LookupParams(
    sok: string, fuzzy: string, utkoordsys: string, treffPerSide: string, side: string)

  /** The service. */
  type Gazetteer = LookupParams -> LookupReply

  /** A fuzzy search for `term`, one hit per page, first page, coordinates
      in EPSG:25833. */
  function SearchFor(term: string): LookupParams
  {
    LookupParams(term, "true", "25833", "1", "1")
  }
}
