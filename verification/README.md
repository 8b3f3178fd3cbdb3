# flyfoto_i_kart — a Dafny model of the catalog, place-name and export logic

The scripts search the National Library's image catalog (`mediatype:bilder`)
page by page. Each picture is placed on a map through the national place-name
service (`stedsnavn`). The result is written either to a spreadsheet or to a
geodatabase, with one point table per place category.

This project models the pure logic between those calls:

- **Spreadsheet path** (`nb_api_functions.py`):
  - pagination from page 0, with the optional `max_results` cap;
  - filtering items on `subject.geographics`;
  - the thumbnail rewrite;
  - the positional split of the first geographics string into Land / Fylke / Kommune / `Sted_i`;
  - the choice of the search term;
  - decoding the first hit of a place-name reply;
  - the coordinate table;
  - the `.xlsx` file-name rule.
- **Geodatabase path** (`api_geodatabase_funksjoner.py`):
  - pagination from page 1, capped by `max_sider`;
  - the `stedinfo` string;
  - the cleanup of that string into a set of place names;
  - the column registry with last-write-wins cells filled from place-name replies;
  - `sanitize_name`;
  - the choice of the rows and columns written to the main table and the point tables.

The catalog and the place-name service are pure functions passed in as
parameters: `Catalog.CatalogApi` maps a page request to a response, and
`PlaceLookup.Gazetteer` maps query parameters to a reply. The exceptions the
model covers (the frame errors of the spreadsheet path, a place-name reply
that is not JSON or has a hit without a full point, an empty sanitized name)
are `Failure` values; the exceptions listed under "Left out" are not
modelled.

Modules:

| module | file | contents |
|---|---|---|
| `Wrappers` | wrappers.dfy | `Option`, `Result`, `Min`, `Max` |
| `Text` | text.dfy | `strip`, `str.replace`, `str.split(sep)`, `join`, splitting into maximal runs of non-delimiters |
| `Catalog`, `PlaceLookup` | catalog.dfy, place_lookup.dfy | the shapes of the two services' requests and replies |
| `NbSearch` | nb_search.dfy | `search_nb_images` |
| `NbOffsetPaging` | nb_offset_paging.dfy | a concrete offset-paged catalog, and what pagination gathers from it |
| `NbCoordinates` | nb_coordinates.dfy | `save_to_excel`'s name rule, `build_api_params`, `get_coordinates`, `add_coordinates_to_table` |
| `GdbFetch` | gdb_fetch.dfy | `hent_data_fra_norge_i_bilder` |
| `GdbPlaces` | gdb_places.dfy | `hent_stedsinformasjon` |
| `GdbExport` | gdb_export.dfy | `sanitize_name`, `opprett_geodatabase` |

## Model

| member | source | states |
|---|---|---|
| Text.TrimStart | nb_api_functions.py:80-85 | the result is a suffix of the input, everything cut off is whitespace, and it does not start with whitespace |
| Text.TrimEnd | nb_api_functions.py:80-85 | the result is a prefix of the input, everything cut off is whitespace, and it does not end with whitespace |
| Text.TrimSpec | nb_api_functions.py:80-85 | `strip()` keeps only characters of the input, neither end of its result is whitespace, and the result is empty exactly when the input is all whitespace |
| Text.TrimIdempotent | api_geodatabase_funksjoner.py:71 | stripping twice is stripping once |
| Text.ReplaceAllRemoves | nb_api_functions.py:33 | after `replace(pat, rep)`, where `rep` cannot help form `pat`, no occurrence of `pat` is left |
| Text.ReplaceAllIdentity | nb_api_functions.py:33 | `replace` leaves a string without the pattern unchanged |
| Text.ReplaceAllAcross | api_geodatabase_funksjoner.py:70 | `replace` of a pattern that cannot contain the separator acts on each side of the separator independently |
| Text.ReplaceAllBetween | nb_api_functions.py:33 | an occurrence of the pattern standing between two separators the pattern does not contain is replaced by the replacement, and each side is replaced on its own |
| Text.SplitAtJoin | api_geodatabase_funksjoner.py:70 | `split(',')` of parts joined by `','`, none containing `','`, gives back the parts |
| Text.JoinSplitAt | api_geodatabase_funksjoner.py:70 | joining the pieces of `split(sep)` with `sep` gives back the string |
| Text.SplitRunsKeepsContent | nb_api_functions.py:52 | the regex split on a delimiter class loses only delimiter characters: its pieces joined are the input without delimiters |
| Text.SplitRunsJoinRuns | nb_api_functions.py:52-55 | splitting non-empty delimiter-free parts joined by any runs of delimiters (such as `", "`) gives back the parts |
| Text.SplitRunsJoin | nb_api_functions.py:52-55 | splitting non-empty delimiter-free parts joined by one delimiter gives back the parts |
| NbSearch.FullSizeThumbnail | nb_api_functions.py:31-33 | a missing thumbnail stays missing; otherwise no `{width},{height}` is left, and a link without one is unchanged |
| NbSearch.FullSizeBetweenSlashes | nb_api_functions.py:31-33 | a link `before/{width},{height}/after` becomes `before'/full/after'`, where `before'` and `after'` are the two sides rewritten on their own |
| NbSearch.RetainedFromItems | nb_api_functions.py:29-39 | every retained record comes from an item with geographics; with all items having them none is dropped, with none having them nothing is kept |
| NbSearch.RetainedAppend | nb_api_functions.py:26-40 | filtering distributes over concatenation of pages |
| NbSearch.Capped | nb_api_functions.py:14-15 | the kept records are a prefix of the gathered ones, of length `min(len, max_results)` when a cap is given, all of them otherwise |
| NbSearch.TakeUntilCapIsCapped | nb_api_functions.py:26-40 | the inner loop with its cap check keeps exactly the cap-limited prefix of what was kept so far plus the page's retained items |
| NbSearch.Paginate | nb_api_functions.py:13-47 | pagination extends the earlier requests by at most the fuel bound, and request `i` asks for page `i` |
| NbSearch.PaginateRecords | nb_api_functions.py:13-47 | the records are the cap-limited prefix of the retained items of all responses, in request order |
| NbSearch.PaginateContinuedBefore | nb_api_functions.py:24-44 | every request but the last got status 200 and was not on the last page |
| NbSearch.PaginateStops | nb_api_functions.py:13-47 | the loop ended for one stated reason: a non-200 status on the last request, the last page reached, the cap reached, or the fuel bound |
| NbSearch.PaginateSizes | nb_api_functions.py:20 | with a fixed page size every request asks for that size |
| NbSearch.PaginateSizesFollow | nb_api_functions.py:15-23 | request `i` asks for the size the policy gives after the records kept from requests `0 .. i - 1`; with the shrinking policy that is `min(page_size, max_results - fetched)` |
| NbSearch.SearchPagesAsWritten | nb_api_functions.py:7-47 | the loop as written: at most `max_results` records, pages 0, 1, 2, …, records are the capped gather of the responses, and request `i` asks for `min(page_size, max_results - fetched)` items (`page_size` when `max_results` is `None` or 0), where `fetched` counts the capped records of requests `0 .. i - 1` |
| NbSearch.SearchPages | nb_api_functions.py:7-47 | the loop with a fixed page size: the same, and every request is `(page i, page_size)` |
| NbSearch.HttpErrorKeepsEarlierPages | nb_api_functions.py:24-47 | with either request size, a non-200 status ends the search, keeping exactly the capped items of every earlier page, all of which got 200 |
| NbSearch.HttpErrorAsWritten | nb_api_functions.py:20-47 | the loop as written, with its shrinking `size`, keeps the capped items of the pages before a non-200 status |
| NbSearch.SplitRecord | nb_api_functions.py:52-60 | Land is always present; Fylke/Kommune are present exactly when the split gives 2/3 tokens; tokens contain no delimiter; `Sted_1` is Kommune and nothing else |
| NbSearch.LevelsRoundTrip | nb_api_functions.py:52-55 | for delimiter-free levels separated by runs of delimiters, Land, Fylke and Kommune are levels 0, 1 and 2, and missing exactly when there are fewer levels |
| NbSearch.CommaSpaceLevels | nb_api_functions.py:52-55 | `Land, Fylke, Kommune` written with `", "` between the levels puts each level in its column |
| NbSearch.OnlyStedOne | nb_api_functions.py:58-60 | re-splitting Kommune yields at most one `Sted_i` column, and `Sted_1` equals Kommune in every row |
| NbSearch.SplitTable | nb_api_functions.py:49-55 | one row per record; Kommune is missing exactly when the split gave fewer than 3 tokens |
| NbSearch.SplitTableAsWritten | nb_api_functions.py:49-55 | the frame operations as written fail on an empty result and whenever no record has 3 tokens; otherwise they agree with `SplitTable` |
| NbSearch.EmptySearchRaises | nb_api_functions.py:49-52 | a search with no records raises a missing-column error, where an empty table is meant |
| NbSearch.ShortNamesRaise | nb_api_functions.py:52-55 | one record `Land;Fylke` makes `geo_df[2]` fail, where a row with a missing Kommune is meant |
| NbSearch.SearchNbImagesAsWritten | nb_api_functions.py:7-66 | the function as written returns a table exactly when some kept record's name has three tokens, fails when nothing is kept, and its table has one row per kept record, at most `max_results` |
| NbSearch.SearchNbImages | nb_api_functions.py:7-66 | the corrected function (fixed page size, split that never fails): one row per kept record, in order, each the split of its record, never more than `max_results` |
| NbOffsetPaging.OffsetCatalogServesSlices | nb_api_functions.py:20-21 | the reference catalog answers page `p` of size `s` with status 200, the items at positions `p*s` to `p*s+s` clipped to the list, and `ceil(n/s)` pages |
| NbOffsetPaging.PageCountIsCeiling | nb_api_functions.py:41 | the page count the reference catalog reports is `(n + s - 1) / s`, so the loop's last page is `ceil(n/s) - 1` |
| NbOffsetPaging.GatheredFixedPages | nb_api_functions.py:17-22 | fixed-size pages 0..k-1 gather the retained items of the first `k*s` items of the catalog |
| NbOffsetPaging.OffsetPagingEnds | nb_api_functions.py:41-44 | with enough fuel, pagination over the reference catalog ends on the last page or at the cap |
| NbOffsetPaging.OffsetRecords | nb_api_functions.py:24-44 | the records gathered are those of a prefix of the catalog |
| NbOffsetPaging.OffsetPagingComplete | nb_api_functions.py:13-47 | fixed-size pagination over the reference catalog keeps exactly the first `max_results` retained items of the whole catalog |
| NbOffsetPaging.ShrinkingPagesRepeatItems | nb_api_functions.py:20 | with the shrinking `size` as written, catalog `[a,b,c]`, page size 2 and cap 3 yields `a, b, b` |
| NbOffsetPaging.FixedPagesKeepEachItem | nb_api_functions.py:20 | with a fixed `size` the same search yields `a, b, c` |
| NbCoordinates.ExcelFileName | nb_api_functions.py:69-71 | the name ends in `.xlsx`, extends the given name by at most the suffix, and is unchanged exactly when it already ended in `.xlsx` |
| NbCoordinates.ExcelFileNameIdempotent | nb_api_functions.py:70-71 | the rule applied twice is the rule applied once |
| NbCoordinates.ChosenTermSpec | nb_api_functions.py:79-85 | no term exactly when none of Kommune, Fylke and Land is non-null and non-blank; a chosen term is non-empty and stripped |
| NbCoordinates.TermPriority | nb_api_functions.py:80-85 | Kommune wins over Fylke and Fylke over Land, each stripped |
| NbCoordinates.BuildApiParamsSpec | nb_api_functions.py:77-96 | parameters exist exactly when a term was chosen and has at most 100 characters; they are the fixed fuzzy query for that term |
| NbCoordinates.NoFallback | nb_api_functions.py:80-96 | a usable Kommune longer than 100 characters gives no parameters, even if Fylke or Land would do |
| NbCoordinates.GetCoordinates | nb_api_functions.py:99-125 | no parameters give `(None, None)`; north and east are present together, and only as the point of the first hit |
| NbCoordinates.FirstHitDecides | nb_api_functions.py:115-120 | with hits, a first hit with both coordinates gives `(nord, øst)`, and one without a point gives `(None, None)` |
| NbCoordinates.NoHitsNoCoordinates | nb_api_functions.py:111-125 | an error status or zero hits gives `(None, None)` |
| NbCoordinates.AddCoordinatesToTable | nb_api_functions.py:129-141 | one row per input row, unchanged; rows without parameters get no coordinates; `Nord` and `Øst` are filled together, with the pair `get_coordinates` gives for the row's parameters; a row has coordinates exactly when its query's first hit has both, and they are that hit's point |
| NbCoordinates.TableOnlyUsesQueries | nb_api_functions.py:134-139 | the table depends on the place-name service only through the lookups made: services that agree on those give the same table |
| NbCoordinates.QueriesSnoc | nb_api_functions.py:134-137 | the lookups are made in row order, one for each row with parameters and none for the others |
| NbCoordinates.QueriesCount | nb_api_functions.py:134-137 | the number of lookups is the number of rows with parameters |
| NbCoordinates.QueriesAreRowQueries | nb_api_functions.py:134-137 | every lookup made is the query built from some row |
| NbCoordinates.QueriesOnePerRow | nb_api_functions.py:134-137 | when every row has parameters, one lookup per row is made |
| NbCoordinates.QueriesNoneSent | nb_api_functions.py:135-136 | when no row has parameters, no lookup is made |
| NbCoordinates.KommuneIsLookedUp | nb_api_functions.py:129-141 | a record `Land;Fylke;Kommune` is looked up by its Kommune and gets the first hit's coordinates |
| GdbFetch.StedInfo | api_geodatabase_funksjoner.py:32-37 | `stedinfo` contains no `;` and has one character more than the place string and the joined geographics |
| GdbFetch.StedInfoParts | api_geodatabase_funksjoner.py:32-37 | `stedinfo` is the place string with `;`→`,`, then `,`, then the geographics (each with `;`→`,`) joined by `,` |
| GdbFetch.PageGeoRecords | api_geodatabase_funksjoner.py:22-44 | a 200 response gives one row per item, built from that item; any other status gives none |
| GdbFetch.FetchFrom | api_geodatabase_funksjoner.py:20-51 | requests ask for consecutive pages of 100 from the start page, at least one and never past `max_sider` |
| GdbFetch.FetchStops | api_geodatabase_funksjoner.py:20-51 | every request but the last got 200 and was below `totalPages` and `max_sider`; the last did not |
| GdbFetch.HentData | api_geodatabase_funksjoner.py:10-53 | pages 1, 2, … of size 100, at most `max(1, max_sider)` of them, and exactly one row per item of every answered page |
| GdbFetch.FailureKeepsEarlierPages | api_geodatabase_funksjoner.py:21-23 | a non-200 response ends the fetch, keeping every row of the earlier pages, all of which got 200 |
| GdbPlaces.TokensArePlaces | api_geodatabase_funksjoner.py:70-72 | every cleaned place is non-empty, stripped, and free of `,` and `'` |
| GdbPlaces.CleanPlacesArePieces | api_geodatabase_funksjoner.py:70-72 | the cleaned set is the set of non-blank stripped pieces of the scrubbed string |
| GdbPlaces.PlacesRoundTrip | api_geodatabase_funksjoner.py:70-72 | places that are clean and contain no `null`, joined by `,`, are recovered in order, and as a set |
| GdbPlaces.PlacesOfParts | api_geodatabase_funksjoner.py:70-72 | the places of two parts joined by `,` are the union of each part's places |
| GdbPlaces.StedInfoPlaces | api_geodatabase_funksjoner.py:32-72 | the places in `stedinfo` are those of the place string together with the clean subject geographics |
| GdbPlaces.NullCanSurvive | api_geodatabase_funksjoner.py:70 | one `replace('null', '')` pass turns `nunullll` into `null` |
| GdbPlaces.AddColumn | api_geodatabase_funksjoner.py:93-94 | a category column is added only when absent, at the end; columns are never removed or reordered |
| GdbPlaces.HitXY | api_geodatabase_funksjoner.py:89-91 | a hit gives `(øst, nord)` exactly when its point has both; otherwise the lookup raises |
| GdbPlaces.RecordHit | api_geodatabase_funksjoner.py:89-96 | a hit writes only the cell of its row and category, after registering the column |
| GdbPlaces.ApplyReply | api_geodatabase_funksjoner.py:85-96 | a non-200 reply changes nothing; a 200 reply that is not JSON raises |
| GdbPlaces.ApplyHitsCell | api_geodatabase_funksjoner.py:88-96 | after the hits of one reply, a cell holds the last hit of its category for that row, and other cells are unchanged |
| GdbPlaces.UpdateRowCell | api_geodatabase_funksjoner.py:74-96 | after all places of a row, each category cell holds the last answer in lookup order, and other rows are unchanged |
| GdbPlaces.UpdateRowColumns | api_geodatabase_funksjoner.py:74-96 | a row's lookups only add columns and keep the columns distinct |
| GdbPlaces.StepSucceeds | api_geodatabase_funksjoner.py:66-98 | the step succeeds exactly when every reply is either not 200 or JSON whose hits all have a full point |
| GdbPlaces.StepColumns | api_geodatabase_funksjoner.py:66-98 | the original columns come first and stay; all columns are distinct |
| GdbPlaces.StepCell | api_geodatabase_funksjoner.py:66-98 | each cell is the last answer of its category among the row's place lookups |
| GdbPlaces.StepCellFilled | api_geodatabase_funksjoner.py:66-98 | a cell is filled exactly when some cleaned place of that row's `stedinfo` got a hit of that category, and then holds such a hit |
| GdbExport.KeepNameCharsFacts | api_geodatabase_funksjoner.py:103 | the filter keeps a name made of alphanumerics and `_`, and empties exactly a name without any |
| GdbExport.KeepNameCharsOne | api_geodatabase_funksjoner.py:103 | a single character is kept exactly when it is alphanumeric or `_` |
| GdbExport.KeepNameCharsAppend | api_geodatabase_funksjoner.py:103 | the filter works character by character: the result for a concatenation is the results for the parts, in order |
| GdbExport.SanitizeName | api_geodatabase_funksjoner.py:100-106 | it fails exactly when nothing is left after filtering; otherwise the name holds only alphanumerics and `_`, does not start with a digit, and is the filtered name with `fc_` exactly when that starts with a digit |
| GdbExport.SanitizeValid | api_geodatabase_funksjoner.py:100-106 | a name that is already valid is returned unchanged |
| GdbExport.SanitizeIdempotent | api_geodatabase_funksjoner.py:100-106 | sanitizing a sanitized name changes nothing |
| GdbExport.MainRows | api_geodatabase_funksjoner.py:124-127 | one main-table row per record, with its index, title and thumbnail |
| GdbExport.PointTableName | api_geodatabase_funksjoner.py:132 | a point-table name is valid and is the sanitized `prefix_category` |
| GdbExport.RowPoint | api_geodatabase_funksjoner.py:141-144 | `Nasjon` always has a point; a filled cell is the point |
| GdbExport.PointRowsExact | api_geodatabase_funksjoner.py:139-145 | a point row `(i, xy)` is written exactly when row `i` has point `xy`, in increasing row order |
| GdbExport.NationEveryRow | api_geodatabase_funksjoner.py:142-145 | the `Nasjon` table gets a point for every row |
| GdbExport.PointTablesShape | api_geodatabase_funksjoner.py:129-137 | exactly the columns other than `title`, `thumbnail_medium`, `stedinfo` and `koordinater` get a table; each is named by `sanitize_name` and holds that column's point rows |
| GdbExport.OpprettGeodatabase | api_geodatabase_funksjoner.py:108-127 | it fails exactly when the main table name sanitizes to nothing; otherwise the main table has a valid name and one row per record |
| GdbExport.ExportedPoint | api_geodatabase_funksjoner.py:108-145 | after the place step, a category table holds `(row, xy)` exactly when `xy` was the last answer of that category for the row, or the default point for `Nasjon` without one |

## Left out

- HTTP transport: `requests.get`, `Session().send`, URLs and connection exceptions. The services are pure function parameters.
- `raise_for_status` is modelled as "status 400–599 gives `(None, None)`". Other exceptions inside `get_coordinates` are folded into the reply shape.
- pandas mechanics and `to_excel`: rows are records. Column order beyond the category registry is not modelled.
- `arcpy` (geodatabase, table and feature-class creation, insert cursors): only the rows and columns that would be written are modelled. Tables that already exist and receive appended rows are not modelled either.
- At api_geodatabase_funksjoner.py:117-119, the main table is created under the raw name while its path uses the sanitized name. This concerns the geodatabase library, and the model uses the sanitized name.
- `main.py` (interactive prompts and argument parsing), and `print` logging.
- Coordinates are uninterpreted reals; nothing computes with them.
- `isalnum` and `isdigit` are modelled on Latin-1 letters and digits, not all of Unicode.
- JSON `null` inside the catalog data is not distinguished from a missing key.
- A catalog item without `metadata` or without `_links` raises `KeyError` in the source (nb_api_functions.py:29 and 31 for an item with geographics, api_geodatabase_funksjoner.py:28-29 for every item). `Catalog.CatalogItem` always has both, so the model cannot express this failure.
- A JSON `null` for `nord` or `øst` in a place-name reply is treated like a missing key, because `PlaceLookup.Point` holds each coordinate as an `Option`. The source does not treat them alike. For a first hit whose point has a `null` coordinate, `get_coordinates` returns a pair with `None` in it, such as `(None, øst)` (nb_api_functions.py:118-120); `NbCoordinates.GetCoordinates` gives `(None, None)`. For such a hit, `hent_stedsinformasjon` stores the pair with its `None` without raising (api_geodatabase_funksjoner.py:91); `GdbPlaces.HitXY` fails as it does for a missing key.
- GdbPlaces.ApplyReply: a 200 place-name reply whose `navn` is JSON `null` is treated like a reply without `navn`, as no hits. In the source, `.get('navn', [])` returns `None` for it (api_geodatabase_funksjoner.py:87) and the `for` loop at :88 raises `TypeError`. `PlaceLookup.LookupBody.names` is an `Option`, so it cannot tell `null` from a missing key. A `null` element inside `navn` raises `AttributeError` at :89; `PlaceLookup.PlaceName` has no value for it, so this failure is not expressible either.
- A 200 catalog response without `_embedded` or `page` is not modelled. The responses always carry items and `totalPages`.
- Python's set iteration order at api_geodatabase_funksjoner.py:72 is a parameter (`GdbPlaces.Orders`): any enumeration of the cleaned set is allowed.
- The category `None` and the category text `"None"` give the same point-table name. Only the name rule is modelled, not the collision between tables.
- A category named like a fixed column (`title`, `stedinfo`, …) is not modelled; it would overwrite that column.
- The commented-out `tilpass_dataframe` (api_geodatabase_funksjoner.py:55-64) is dead code.
- The `if sted:` test at api_geodatabase_funksjoner.py:75 is always true after the cleanup, so the model omits it.
- `totaltAntallTreff` and `totalPages` are integers. Values of another JSON type are not modelled.
- NbSearch.Paginate: it carries a `fuel` bound on the number of requests, because the source loop terminates only if the catalog eventually reports a last page. When the bound is hit, the stop reason is `OutOfFuel`. The reference-catalog lemmas show that enough fuel always reaches the real end.

## Findings

| source | as written | input that shows it | evidently intended | confidence | as-written member | corrected member |
|---|---|---|---|---|---|---|
| nb_api_functions.py:49-52 | `df['geographics']` on the frame of an empty result list raises `KeyError` | a search whose responses keep no item, e.g. the first page is non-200 | an empty table | not executed | NbSearch.EmptySearchRaises | NbSearch.SplitTable |
| nb_api_functions.py:52-55 | `geo_df[2]` raises `KeyError` when no geographics string has three tokens | one record with geographics `Norge;Trøndelag` | rows with Kommune missing | not executed | NbSearch.ShortNamesRaise | NbSearch.SplitTable |
| nb_api_functions.py:20 | the page `size` shrinks to the remaining cap while `page` keeps counting, so the offset moves back and items repeat | catalog `[a, b, c]`, `page_size=2`, `max_results=3`: page 0 size 2 gives `a, b`, page 1 size 1 gives `b` | a fixed page size, so each item is kept once | not executed | NbOffsetPaging.ShrinkingPagesRepeatItems | NbOffsetPaging.FixedPagesKeepEachItem |
