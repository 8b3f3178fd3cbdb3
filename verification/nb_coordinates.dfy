/** The coordinate step of the spreadsheet script: choose a search term per
    row, ask the place-name service, read the first hit's representative
    point, and name the spreadsheet file. */
module NbCoordinates {
  import opened Wrappers
  import opened Text
  import opened PlaceLookup
  import opened NbSearch

  // ---------------------------------------------------------------------------
  // The file name (`save_to_excel`)
  // ---------------------------------------------------------------------------

  const ExcelSuffix: string := ".xlsx"

  /** The name the spreadsheet is written under: the given name, with
      `.xlsx` appended unless it already ends so. */
  function ExcelFileName(name: string): (r: string)
    ensures EndsWith(r, ExcelSuffix)
    ensures name <= r && |r| <= |name| + |ExcelSuffix|
    ensures EndsWith(name, ExcelSuffix) <==> r == name
  {
    if EndsWith(name, ExcelSuffix) then name else name + ExcelSuffix
  }

  /** Normalising a normalised name changes nothing. */
  lemma ExcelFileNameIdempotent(name: string)
    ensures ExcelFileName(ExcelFileName(name)) == ExcelFileName(name)
  {
  }

  // ---------------------------------------------------------------------------
  // The search term (`build_api_params`)
  // ---------------------------------------------------------------------------

  /** The longest search term the script sends. */
  const MaxTermLength := 100

  /** `pd.notnull(field) and field.strip()`: present and not all whitespace. */
  predicate Usable(field: Option<string>)
  {
    field.Some? && Trim(field.value) != []
  }

  /** The trimmed first usable field of Kommune, Fylke and Land, if any. */
  function ChosenTerm(row: NbRow): Option<string>
  {
    var field := if Usable(row.kommune) then row.kommune
                 else if Usable(row.fylke) then row.fylke
                 else row.land;
    if Usable(field) then Some(Trim(field.value)) else None
  }

  /** There is a term exactly when some field is usable, and the term is
      never empty and never starts or ends with whitespace. */
  lemma ChosenTermSpec(row: NbRow)
    ensures var term := ChosenTerm(row);
            && (term.None? <==> !Usable(row.kommune) && !Usable(row.fylke) && !Usable(row.land))
            && (term.Some? ==> term.value != [] && Trim(term.value) == term.value)
  {
    var field := if Usable(row.kommune) then row.kommune
                 else if Usable(row.fylke) then row.fylke
                 else row.land;
    if Usable(field) {
      TrimIdempotent(field.value);
    }
  }

  /** The query for a row: the chosen term, if there is one and it has at
      most 100 characters. */
  function BuildApiParams(row: NbRow): Option<LookupParams>
  {
    var term := ChosenTerm(row);
    if term.Some? && 1 <= |term.value| <= MaxTermLength then Some(SearchFor(term.value)) else None
  }

  /** A row has a query exactly when its chosen term has at most 100
      characters; the query searches for that term, which is never empty
      and never starts or ends with whitespace. */
  lemma BuildApiParamsSpec(row: NbRow)
    ensures var p := BuildApiParams(row);
            && (p.Some? <==> ChosenTerm(row).Some? && |ChosenTerm(row).value| <= MaxTermLength)
            && (p.Some? ==> p.value == SearchFor(ChosenTerm(row).value))
            && (p.Some? ==> 1 <= |p.value.sok| <= MaxTermLength && Trim(p.value.sok) == p.value.sok)
  {
    ChosenTermSpec(row);
  }

  /** Kommune comes first, then Fylke, then Land: the term is the trimmed
      highest-ranked usable field. */
  lemma TermPriority(row: NbRow)
    ensures Usable(row.kommune) ==> ChosenTerm(row) == Some(Trim(row.kommune.value))
    ensures !Usable(row.kommune) && Usable(row.fylke) ==> ChosenTerm(row) == Some(Trim(row.fylke.value))
    ensures !Usable(row.kommune) && !Usable(row.fylke) && Usable(row.land) ==>
              ChosenTerm(row) == Some(Trim(row.land.value))
  {
  }

  /** No fallback: once a usable Kommune is too long, the row gets no query
      even when Fylke or Land would fit. */
  lemma NoFallback(row: NbRow)
    requires Usable(row.kommune) && |Trim(row.kommune.value)| > MaxTermLength
    ensures BuildApiParams(row).None?
  {
    TermPriority(row);
  }

  // ---------------------------------------------------------------------------
  // The reply (`get_coordinates`)
  // ---------------------------------------------------------------------------

  /** `raise_for_status` raises for client and server errors only. */
  predicate IsErrorStatus(status: int)
  {
    400 <= status < 600
  }

  /** The representative point of the first hit of a reply the script
      accepts; every failure on the way (an error status, a body that is not
      JSON, a missing key, an empty `navn`) gives `None`. */
  function FirstHitPoint(reply: LookupReply): Option<Point>
  {
    if IsErrorStatus(reply.status) || reply.body.None? then None
    else
      var body := reply.body.value;
      if body.totalHits.None? || body.totalHits.value <= 0 then None
      else if body.names.None? || body.names.value == [] then None
      else body.names.value[0].point
  }

  /** `(nord, øst)` for a query, or `(None, None)`. Without a query nothing
      is asked; a pair is returned only when both coordinates are present,
      and then it is the first hit's point in (north, east) order. */
  function GetCoordinates(params: Option<LookupParams>, lookup: Gazetteer): (r: (Option<Coord>, Option<Coord>))
    ensures params.None? ==> r == (None, None)
    ensures r.0.Some? <==> r.1.Some?
    ensures r.0.Some? ==> params.Some? && FirstHitPoint(lookup(params.value)) == Some(Point(r.0, r.1))
  {
    if params.None? then (None, None)
    else
      var point := FirstHitPoint(lookup(params.value));
      if point.Some? && point.value.north.Some? && point.value.east.Some? then
        (point.value.north, point.value.east)
      else (None, None)
  }

  /** The first hit decides: whatever follows it in `navn`, a first hit with
      both coordinates gives exactly those, and one without a point gives
      nothing. */
  lemma FirstHitDecides(params: LookupParams, lookup: Gazetteer, hits: nat, first: PlaceName, rest: seq<PlaceName>)
    requires !IsErrorStatus(lookup(params).status)
    requires lookup(params).body == Some(LookupBody(Some(hits), Some([first] + rest)))
    requires hits > 0
    ensures first.point.Some? && first.point.value.north.Some? && first.point.value.east.Some? ==>
              GetCoordinates(Some(params), lookup) == (first.point.value.north, first.point.value.east)
    ensures first.point.None? ==> GetCoordinates(Some(params), lookup) == (None, None)
  {
  }

  /** A reply with no hits, or with an error status, gives nothing. */
  lemma NoHitsNoCoordinates(params: LookupParams, lookup: Gazetteer)
    requires IsErrorStatus(lookup(params).status)
             || (lookup(params).body.Some? && lookup(params).body.value.totalHits == Some(0))
    ensures GetCoordinates(Some(params), lookup) == (None, None)
  {
  }

  // ---------------------------------------------------------------------------
  // The table (`add_coordinates_to_table`)
  // ---------------------------------------------------------------------------

  /** A first hit the script turns into `(nord, øst)`. */
  predicate HasBothCoordinates(point: Option<Point>)
  {
    point.Some? && point.value.north.Some? && point.value.east.Some?
  }

  /** A row with its `Nord` and `Øst` cells. */
  datatype CoordRow = CoordRow(row: NbRow, nord: Option<Coord>, east: Option<Coord>)

  /** The table with coordinates: one row out per row in, its other cells
      unchanged; a row without a query keeps empty coordinates; a row with
      coordinates got them from its own query's first hit; the two cells are
      filled together, with the pair `get_coordinates` gives for the row. */
  function AddCoordinatesToTable(rows: seq<NbRow>, lookup: Gazetteer): (table: seq<CoordRow>)
    ensures |table| == |rows|
    ensures forall i :: 0 <= i < |rows| ==> table[i].row == rows[i]
    ensures forall i :: 0 <= i < |rows| && BuildApiParams(rows[i]).None? ==>
              table[i].nord.None? && table[i].east.None?
    ensures forall i :: 0 <= i < |rows| && table[i].nord.Some? ==>
              BuildApiParams(rows[i]).Some?
              && FirstHitPoint(lookup(BuildApiParams(rows[i]).value)) == Some(Point(table[i].nord, table[i].east))
    ensures forall i :: 0 <= i < |rows| && BuildApiParams(rows[i]).Some?
                        && HasBothCoordinates(FirstHitPoint(lookup(BuildApiParams(rows[i]).value))) ==>
              Some(Point(table[i].nord, table[i].east)) == FirstHitPoint(lookup(BuildApiParams(rows[i]).value))
    ensures forall i :: 0 <= i < |rows| ==> (table[i].nord.Some? <==> table[i].east.Some?)
    ensures forall i :: 0 <= i < |rows| ==>
              (table[i].nord, table[i].east) == GetCoordinates(BuildApiParams(rows[i]), lookup)
  {
    seq(|rows|, i requires 0 <= i < |rows| =>
      var coords := GetCoordinates(BuildApiParams(rows[i]), lookup);
      CoordRow(rows[i], coords.0, coords.1))
  }

  /** The query of each row, present or not. */
  function RowParams(rows: seq<NbRow>): (ps: seq<Option<LookupParams>>)
    ensures |ps| == |rows|
    ensures forall i :: 0 <= i < |rows| ==> ps[i] == BuildApiParams(rows[i])
  {
    seq(|rows|, i requires 0 <= i < |rows| => BuildApiParams(rows[i]))
  }

  /** The present queries, in order. */
  function Sent(ps: seq<Option<LookupParams>>): (qs: seq<LookupParams>)
    ensures |qs| <= |ps|
  {
    if ps == [] then [] else (if ps[0].Some? then [ps[0].value] else []) + Sent(ps[1..])
  }

  /** Every query sent is present at some position. */
  lemma {:induction false} SentFromPositions(ps: seq<Option<LookupParams>>)
    ensures forall q :: q in Sent(ps) ==> exists i :: 0 <= i < |ps| && ps[i] == Some(q)
  {
    if ps != [] {
      SentFromPositions(ps[1..]);
      assert forall i :: 0 <= i < |ps[1..]| ==> ps[1..][i] == ps[i + 1];
    }
  }

  /** One query is sent per position when all are present. */
  lemma {:induction false} SentAll(ps: seq<Option<LookupParams>>)
    requires forall i :: 0 <= i < |ps| ==> ps[i].Some?
    ensures |Sent(ps)| == |ps|
  {
    if ps != [] {
      assert forall i :: 0 <= i < |ps[1..]| ==> ps[1..][i] == ps[i + 1];
      SentAll(ps[1..]);
    }
  }

  /** No query is sent when none is present. */
  lemma {:induction false} SentNone(ps: seq<Option<LookupParams>>)
    requires forall i :: 0 <= i < |ps| ==> ps[i].None?
    ensures Sent(ps) == []
  {
    if ps != [] {
      assert forall i :: 0 <= i < |ps[1..]| ==> ps[1..][i] == ps[i + 1];
      SentNone(ps[1..]);
    }
  }

  /** The queries the table step sends, in row order: one per row that has
      a query, none for the others. */
  function Queries(rows: seq<NbRow>): (qs: seq<LookupParams>)
    ensures |qs| <= |rows|
  {
    Sent(RowParams(rows))
  }

  /** Every query sent is some row's query. */
  lemma QueriesAreRowQueries(rows: seq<NbRow>)
    ensures forall q :: q in Queries(rows) ==> exists i :: 0 <= i < |rows| && BuildApiParams(rows[i]) == Some(q)
  {
    var ps := RowParams(rows);
    SentFromPositions(ps);
    forall q | q in Queries(rows)
      ensures exists i :: 0 <= i < |rows| && BuildApiParams(rows[i]) == Some(q)
    {
      var i :| 0 <= i < |ps| && ps[i] == Some(q);
      assert BuildApiParams(rows[i]) == Some(q);
    }
  }

  /** Every present query is sent. */
  lemma {:induction false} SentHasPositions(ps: seq<Option<LookupParams>>)
    ensures forall i :: 0 <= i < |ps| && ps[i].Some? ==> ps[i].value in Sent(ps)
  {
    if ps != [] {
      SentHasPositions(ps[1..]);
      assert forall i :: 1 <= i < |ps| ==> ps[i] == ps[1..][i - 1];
    }
  }

  /** Sending distributes over concatenation. */
  lemma {:induction false} SentAppend(a: seq<Option<LookupParams>>, b: seq<Option<LookupParams>>)
    ensures Sent(a + b) == Sent(a) + Sent(b)
  {
    if a != [] {
      assert (a + b)[1..] == a[1..] + b;
      SentAppend(a[1..], b);
    } else {
      assert a + b == b;
    }
  }

  /** The rows that have a query, by position. */
  function QueryRows(rows: seq<NbRow>): set<nat>
  {
    set i: nat | i < |rows| && BuildApiParams(rows[i]).Some?
  }

  /** The positions of the present queries. */
  function Present(ps: seq<Option<LookupParams>>): set<nat>
  {
    set i: nat | i < |ps| && ps[i].Some?
  }

  lemma PresentSnoc(ps: seq<Option<LookupParams>>, p: Option<LookupParams>)
    ensures |ps| !in Present(ps)
    ensures Present(ps + [p]) == Present(ps) + (if p.Some? then {|ps|} else {})
  {
    var all := ps + [p];
    var extra: set<nat> := if p.Some? then {|ps|} else {};
    forall i: nat
      ensures i in Present(all) <==> i in Present(ps) + extra
    {
      if i < |ps| {
        assert all[i] == ps[i];
      }
    }
  }

  /** One query is sent per present position. */
  lemma {:induction false} SentCount(ps: seq<Option<LookupParams>>)
    ensures |Sent(ps)| == |Present(ps)|
    decreases |ps|
  {
    if ps == [] {
      assert Present(ps) == {};
    } else {
      var k := |ps| - 1;
      var front, last := ps[..k], ps[k];
      assert ps == front + [last];
      SentCount(front);
      SentAppend(front, [last]);
      assert Sent([last]) == (if last.Some? then [last.value] else []) + Sent([]);
      PresentSnoc(front, last);
    }
  }

  /** The lookups of a table are those of its first rows followed by those of
      its last row: a query for the last row exactly when it has one. */
  lemma QueriesSnoc(rows: seq<NbRow>, row: NbRow)
    ensures Queries(rows + [row]) == Queries(rows) + (if BuildApiParams(row).Some? then [BuildApiParams(row).value] else [])
  {
    assert RowParams(rows + [row]) == RowParams(rows) + [BuildApiParams(row)];
    SentAppend(RowParams(rows), [BuildApiParams(row)]);
    assert Sent([BuildApiParams(row)]) == (if BuildApiParams(row).Some? then [BuildApiParams(row).value] else []) + Sent([]);
  }

  /** One lookup is made per row that has a query, and none for the others. */
  lemma QueriesCount(rows: seq<NbRow>)
    ensures |Queries(rows)| == |QueryRows(rows)|
  {
    var ps := RowParams(rows);
    SentCount(ps);
    assert Present(ps) == QueryRows(rows);
  }

  /** The table depends on the place-name service only through the lookups
      it makes: two services that agree on those give the same table. */
  lemma TableOnlyUsesQueries(rows: seq<NbRow>, lookup1: Gazetteer, lookup2: Gazetteer)
    requires forall q :: q in Queries(rows) ==> lookup1(q) == lookup2(q)
    ensures AddCoordinatesToTable(rows, lookup1) == AddCoordinatesToTable(rows, lookup2)
  {
    var ps := RowParams(rows);
    SentHasPositions(ps);
    var t1, t2 := AddCoordinatesToTable(rows, lookup1), AddCoordinatesToTable(rows, lookup2);
    forall i | 0 <= i < |rows|
      ensures t1[i] == t2[i]
    {
      var params := BuildApiParams(rows[i]);
      if params.Some? {
        assert ps[i] == params;
        assert lookup1(params.value) == lookup2(params.value);
      }
    }
  }

  /** When every row has a query, one query is sent per row. */
  lemma QueriesOnePerRow(rows: seq<NbRow>)
    requires forall i :: 0 <= i < |rows| ==> BuildApiParams(rows[i]).Some?
    ensures |Queries(rows)| == |rows|
  {
    var ps := RowParams(rows);
    assert forall i :: 0 <= i < |ps| ==> ps[i].Some?;
    SentAll(ps);
  }

  /** A table with no usable row sends no query at all. */
  lemma QueriesNoneSent(rows: seq<NbRow>)
    requires forall i :: 0 <= i < |rows| ==> BuildApiParams(rows[i]).None?
    ensures Queries(rows) == []
  {
    var ps := RowParams(rows);
    assert forall i :: 0 <= i < |ps| ==> ps[i].None?;
    SentNone(ps);
  }

  /** A row whose Kommune is a usable term of at most 100 characters asks
      for that Kommune. */
  lemma KommuneQuery(row: NbRow, kommune: string)
    requires row.kommune == Some(kommune)
    requires kommune != [] && Trim(kommune) == kommune && |kommune| <= MaxTermLength
    ensures BuildApiParams(row) == Some(SearchFor(kommune))
  {
    TermPriority(row);
  }

  /** A one-row table whose query's first hit has both coordinates. */
  lemma OneRowTable(row: NbRow, lookup: Gazetteer, params: LookupParams, north: Coord, east: Coord, rest: seq<PlaceName>)
    requires BuildApiParams(row) == Some(params)
    requires lookup(params)
             == LookupReply(200, Some(LookupBody(Some(1), Some([PlaceName(Some("By"), Some(Point(Some(north), Some(east))))] + rest))))
    ensures AddCoordinatesToTable([row], lookup) == [CoordRow(row, Some(north), Some(east))]
  {
    assert GetCoordinates(Some(params), lookup) == (Some(north), Some(east));
  }

  /** One row, end to end: a name "land;fylke;kommune" asks for the
      Kommune, and the first hit's point becomes the row's `Nord` and `Øst`
      (for instance "Norge;Trøndelag;Steinkjer" asks for "Steinkjer"). */
  lemma KommuneIsLookedUp(rec: NbRecord, land: string, fylke: string, kommune: string,
                          lookup: Gazetteer, north: Coord, east: Coord, rest: seq<PlaceName>)
    requires forall level :: level in [land, fylke, kommune] ==> level != [] && Avoids(level, GeoDelimiters)
    requires Trim(kommune) == kommune && |kommune| <= MaxTermLength
    requires rec.geographics == Join([land, fylke, kommune], ';')
    requires lookup(SearchFor(kommune))
             == LookupReply(200, Some(LookupBody(Some(1), Some([PlaceName(Some("By"), Some(Point(Some(north), Some(east))))] + rest))))
    ensures var row := SplitRecord(rec);
            BuildApiParams(row) == Some(SearchFor(kommune))
            && AddCoordinatesToTable([row], lookup) == [CoordRow(row, Some(north), Some(east))]
  {
    var levels := [land, fylke, kommune];
    assert forall i :: 0 <= i < |levels| ==> levels[i] in levels;
    JoinAsRuns(levels, ';');
    var seps := seq(2, _ => [';']);
    assert forall i :: 0 <= i < |seps| ==> DelimiterRun(seps[i], GeoDelimiters);
    LevelsRoundTrip(rec, levels, seps);
    var row := SplitRecord(rec);
    KommuneQuery(row, kommune);
    OneRowTable(row, lookup, SearchFor(kommune), north, east, rest);
  }
}
