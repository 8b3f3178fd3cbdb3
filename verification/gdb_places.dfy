/** `hent_stedsinformasjon` of the geodatabase script: clean each row's
    `stedinfo` into a set of place names, look every name up, and store the
    representative point of every hit in the row's cell of a column named
    after the hit's category, adding that column when it is new. */
module GdbPlaces {
  import opened Wrappers
  import opened Text
  import opened Catalog
  import opened PlaceLookup
  import opened GdbFetch

  // ---------------------------------------------------------------------------
  // Cleaning `stedinfo`
  // ---------------------------------------------------------------------------

  /** The word removed from `stedinfo` before splitting. */
  const NullWord: string := "null"

  /** The separator of `stedinfo`. */
  const PlaceSeparator := ','

  /** The quote character removed from `stedinfo`. */
  const Quote := '\''

  /** A place name as cleaning leaves it: not empty, no whitespace at either
      end, and neither a separator nor a quote inside. */
  predicate IsPlace(t: string)
  {
    t != [] && Trim(t) == t && Avoids(t, {PlaceSeparator, Quote})
  }

  /** `.replace('null', '').replace('\'', '')`. */
  function Scrub(s: string): (r: string)
    ensures Avoids(r, {Quote})
  {
    Without(ReplaceAll(s, NullWord, ""), {Quote})
  }

  /** `.split(',')` of the scrubbed string. */
  function Pieces(s: string): seq<string>
  {
    SplitAt(Scrub(s), {PlaceSeparator})
  }

  /** No piece holds a separator or a quote. */
  lemma PiecesAvoid(s: string)
    ensures forall i :: 0 <= i < |Pieces(s)| ==> Avoids(Pieces(s)[i], {PlaceSeparator, Quote})
  {
    SplitAtKeepsAvoiding(Scrub(s), {PlaceSeparator}, {Quote});
  }

  /** `p.strip()` of every piece. */
  function TrimAll(pieces: seq<string>): (r: seq<string>)
    ensures |r| == |pieces|
    ensures forall i :: 0 <= i < |pieces| ==> r[i] == Trim(pieces[i])
  {
    seq(|pieces|, i requires 0 <= i < |pieces| => Trim(pieces[i]))
  }

  /** The non-empty strings, in order. */
  function NonEmpty(ts: seq<string>): seq<string>
  {
    if ts == [] then [] else (if ts[0] == [] then [] else [ts[0]]) + NonEmpty(ts[1..])
  }

  /** Exactly the non-empty strings survive. */
  lemma {:induction false} NonEmptyMembers(ts: seq<string>)
    ensures forall t :: t in NonEmpty(ts) <==> t != [] && t in ts
    decreases |ts|
  {
    if ts != [] {
      NonEmptyMembers(ts[1..]);
      assert forall t :: t in ts <==> t == ts[0] || t in ts[1..];
    }
  }

  /** Strings none of which is empty all survive. */
  lemma {:induction false} NonEmptyOfNonEmpty(ts: seq<string>)
    requires forall i :: 0 <= i < |ts| ==> ts[i] != []
    ensures NonEmpty(ts) == ts
    decreases |ts|
  {
    if ts != [] {
      NonEmptyOfNonEmpty(ts[1..]);
      assert [ts[0]] + ts[1..] == ts;
    }
  }

  /** Filtering two lists one after the other. */
  lemma {:induction false} NonEmptyAppend(a: seq<string>, b: seq<string>)
    ensures NonEmpty(a + b) == NonEmpty(a) + NonEmpty(b)
    decreases |a|
  {
    if a == [] {
      assert a + b == b;
    } else {
      var head := if a[0] == [] then [] else [a[0]];
      assert (a + b)[0] == a[0] && (a + b)[1..] == a[1..] + b;
      NonEmptyAppend(a[1..], b);
      assert head + (NonEmpty(a[1..]) + NonEmpty(b)) == (head + NonEmpty(a[1..])) + NonEmpty(b);
    }
  }

  /** The cleaned tokens of `stedinfo`, duplicates included, in order:
      `[p.strip() for p in pieces if p.strip()]`. */
  function PlaceTokens(s: string): seq<string>
  {
    NonEmpty(TrimAll(Pieces(s)))
  }

  /** `set(stedinfo)` after cleaning: the place names of a row. */
  function CleanPlaces(s: string): set<string>
  {
    set t | t in PlaceTokens(s)
  }

  /** Every cleaned token is a place name: not empty, trimmed, and free of
      separators and quotes. */
  lemma TokensArePlaces(s: string)
    ensures forall t :: t in PlaceTokens(s) ==> IsPlace(t)
    ensures forall t :: t in CleanPlaces(s) ==> IsPlace(t)
  {
    var pieces := Pieces(s);
    var trimmed := TrimAll(pieces);
    NonEmptyMembers(trimmed);
    forall t | t in PlaceTokens(s)
      ensures IsPlace(t)
    {
      var i :| 0 <= i < |trimmed| && trimmed[i] == t;
      TrimIdempotent(pieces[i]);
      TrimSpec(pieces[i]);
      PiecesAvoid(s);
      assert Avoids(pieces[i], {PlaceSeparator, Quote});
    }
  }

  /** A token of some pieces is the non-empty stripped form of one of
      them, and every non-empty stripped form is a token. */
  lemma TokensOfPieces(pieces: seq<string>, t: string)
    ensures t in NonEmpty(TrimAll(pieces)) <==> t != [] && exists p :: p in pieces && Trim(p) == t
  {
    var trimmed := TrimAll(pieces);
    NonEmptyMembers(trimmed);
    if t in trimmed {
      var i :| 0 <= i < |trimmed| && trimmed[i] == t;
      assert pieces[i] in pieces;
    }
    if exists p :: p in pieces && Trim(p) == t {
      var p :| p in pieces && Trim(p) == t;
      var i :| 0 <= i < |pieces| && pieces[i] == p;
      assert trimmed[i] == t;
    }
  }

  /** The places of a row are exactly the non-empty stripped pieces of its
      scrubbed `stedinfo`. */
  lemma CleanPlacesArePieces(s: string)
    ensures CleanPlaces(s) == set p | p in Pieces(s) && Trim(p) != [] :: Trim(p)
  {
    var pieces := Pieces(s);
    forall t
      ensures t in CleanPlaces(s) <==> t in set p | p in pieces && Trim(p) != [] :: Trim(p)
    {
      TokensOfPieces(pieces, t);
    }
  }

  /** Scrubbing a string with no quote and nothing to replace changes
      nothing. */
  lemma ScrubOfClean(s: string)
    requires Avoids(s, {Quote})
    requires ReplaceAll(s, NullWord, "") == s
    ensures Scrub(s) == s
  {
    WithoutIdentity(s, {Quote});
  }

  /** Neither the separator nor the quote is part of the word `null`. */
  lemma NullWordAvoids()
    ensures PlaceSeparator !in NullWord && Quote !in NullWord && NullWord != []
  {
    assert NullWord == ['n', 'u', 'l', 'l'];
  }

  /** Place names joined by commas are already scrubbed. */
  lemma ScrubOfPlaces(names: seq<string>)
    requires forall i :: 0 <= i < |names| ==> IsPlace(names[i]) && !Occurs(names[i], NullWord)
    ensures Scrub(Join(names, PlaceSeparator)) == Join(names, PlaceSeparator)
  {
    NullWordAvoids();
    ReplaceAllJoinIdentity(names, PlaceSeparator, NullWord, "");
    JoinAvoids(names, PlaceSeparator, {Quote});
    ScrubOfClean(Join(names, PlaceSeparator));
  }

  /** Place names joined by commas split back into themselves. */
  lemma PiecesOfPlaces(names: seq<string>)
    requires |names| >= 1
    requires forall i :: 0 <= i < |names| ==> IsPlace(names[i]) && !Occurs(names[i], NullWord)
    ensures Pieces(Join(names, PlaceSeparator)) == names
  {
    ScrubOfPlaces(names);
    SplitAtJoin(names, PlaceSeparator, {PlaceSeparator});
  }

  /** Place names are their own tokens. */
  lemma TokensOfPlaces(names: seq<string>)
    requires forall i :: 0 <= i < |names| ==> IsPlace(names[i])
    ensures NonEmpty(TrimAll(names)) == names
  {
    assert TrimAll(names) == names;
    NonEmptyOfNonEmpty(names);
  }

  /** Round trip: place names without the word `null`, joined by commas,
      clean back to themselves, in order. */
  lemma PlacesRoundTrip(names: seq<string>)
    requires |names| >= 1
    requires forall i :: 0 <= i < |names| ==> IsPlace(names[i]) && !Occurs(names[i], NullWord)
    ensures PlaceTokens(Join(names, PlaceSeparator)) == names
    ensures CleanPlaces(Join(names, PlaceSeparator)) == set t | t in names
  {
    PiecesOfPlaces(names);
    TokensOfPlaces(names);
  }

  /** Scrubbing works on either side of a separator on its own. */
  lemma ScrubAcross(a: string, b: string)
    ensures Scrub(a + [PlaceSeparator] + b) == Scrub(a) + [PlaceSeparator] + Scrub(b)
  {
    var ra, rb := ReplaceAll(a, NullWord, ""), ReplaceAll(b, NullWord, "");
    ReplaceAllAcross(a, PlaceSeparator, b, NullWord, "");
    WithoutAppend(ra + [PlaceSeparator], rb, {Quote});
    WithoutAppend(ra, [PlaceSeparator], {Quote});
    assert Without([PlaceSeparator], {Quote}) == [PlaceSeparator];
  }

  /** The pieces of `a,b` are those of `a` followed by those of `b`. */
  lemma PiecesAcross(a: string, b: string)
    ensures Pieces(a + [PlaceSeparator] + b) == Pieces(a) + Pieces(b)
  {
    ScrubAcross(a, b);
    SplitAtAcross(Scrub(a), PlaceSeparator, Scrub(b), {PlaceSeparator});
  }

  /** The whitespace-stripped pieces of two lists, one after the other. */
  lemma TrimAllAppend(a: seq<string>, b: seq<string>)
    ensures TrimAll(a + b) == TrimAll(a) + TrimAll(b)
  {
  }

  /** Cleaning works piece by piece: the tokens of `a,b` are those of `a`
      followed by those of `b`. */
  lemma TokensOfParts(a: string, b: string)
    ensures PlaceTokens(a + [PlaceSeparator] + b) == PlaceTokens(a) + PlaceTokens(b)
  {
    PiecesAcross(a, b);
    TrimAllAppend(Pieces(a), Pieces(b));
    NonEmptyAppend(TrimAll(Pieces(a)), TrimAll(Pieces(b)));
  }

  /** The places of `a,b` are the places of both. */
  lemma PlacesOfParts(a: string, b: string)
    ensures CleanPlaces(a + [PlaceSeparator] + b) == CleanPlaces(a) + CleanPlaces(b)
  {
    TokensOfParts(a, b);
  }

  /** With subject geographics free of `;`, `stedinfo` is the place
      string with `;` turned into `,`, a comma, and the geographics joined
      by commas. */
  lemma StedInfoOfClean(item: CatalogItem)
    requires item.geographics.Some?
    requires forall i :: 0 <= i < |item.geographics.value| ==> ';' !in item.geographics.value[i]
    ensures StedInfo(item)
            == ReplaceChar(item.placeString.GetOr(""), ';', PlaceSeparator) + [PlaceSeparator]
               + Join(item.geographics.value, PlaceSeparator)
  {
    var geos := item.geographics.value;
    StedInfoParts(item);
    var replaced := ReplacedParts(geos, ';', PlaceSeparator);
    forall i | 0 <= i < |geos|
      ensures replaced[i] == geos[i]
    {
      assert ';' !in geos[i];
    }
    assert replaced == geos;
  }

  /** The places of a fetched row: those of its place string, plus the
      subject geographics themselves when they are clean place names
      without `;` or `null`. */
  lemma StedInfoPlaces(item: CatalogItem)
    requires item.geographics.Some? && |item.geographics.value| >= 1
    requires forall i :: 0 <= i < |item.geographics.value| ==>
               var g := item.geographics.value[i]; IsPlace(g) && ';' !in g && !Occurs(g, NullWord)
    ensures CleanPlaces(StedInfo(item))
            == CleanPlaces(ReplaceChar(item.placeString.GetOr(""), ';', PlaceSeparator))
               + set g | g in item.geographics.value
  {
    var geos := item.geographics.value;
    var head := ReplaceChar(item.placeString.GetOr(""), ';', PlaceSeparator);
    StedInfoOfClean(item);
    PlacesRoundTrip(geos);
    PlacesOfParts(head, Join(geos, PlaceSeparator));
  }

  /** `replace` is a single pass: a `null` can be left behind by removing
      another one. */
  lemma NullCanSurvive()
    ensures ReplaceAll("nunullll", NullWord, "") == "null"
  {
    var s := "nunullll";
    assert s[2] != NullWord[2];
    assert s[1..] == "unullll" && "unullll"[0] != NullWord[0];
    assert "unullll"[1..] == "nullll" && NullWord <= "nullll";
    assert "nullll"[4..] == "ll";
    assert ReplaceAll("ll", NullWord, "") == "ll";
  }

  // ---------------------------------------------------------------------------
  // The sheet
  // ---------------------------------------------------------------------------

  /** The point `(øst, nord)` stored in a cell. */
  type XY = (Coord, Coord)

  /** The table as the step changes it: its column labels in order (a
      category may be missing, and `None` is then a label like any other),
      and the cells holding a point, by row index and column label. */
  datatype Sheet = Sheet(columns: seq<Option<string>>, cells: map<(nat, Option<string>), XY>)

  /** The point in a cell, if it holds one. */
  function Cell(sheet: Sheet, row: nat, kind: Option<string>): Option<XY>
  {
    if (row, kind) in sheet.cells then Some(sheet.cells[(row, kind)]) else None
  }

  /** No element twice. */
  predicate Distinct<T(==)>(s: seq<T>)
  {
    forall i, j :: 0 <= i < j < |s| ==> s[i] != s[j]
  }

  /** Column labels are unique and every cell lies in a column. */
  predicate WellFormed(sheet: Sheet)
  {
    Distinct(sheet.columns) && forall k :: k in sheet.cells ==> k.1 in sheet.columns
  }

  const ThumbnailColumn: string := "thumbnail_medium"
  const TitleColumn: string := "title"
  const StedinfoColumn: string := "stedinfo"

  /** The columns of the fetched table: none when nothing was fetched. */
  function InitialColumns(records: seq<GeoRecord>): (cs: seq<Option<string>>)
    ensures Distinct(cs)
    ensures records == [] <==> cs == []
  {
    if records == [] then [] else [Some(ThumbnailColumn), Some(TitleColumn), Some(StedinfoColumn)]
  }

  /** `if navneobjekttype not in df: df[navneobjekttype] = None`: the
      columns with `kind` added at the end when it is new. */
  function AddColumn(columns: seq<Option<string>>, kind: Option<string>): (r: seq<Option<string>>)
    ensures columns <= r && kind in r
    ensures kind in columns <==> r == columns
    ensures kind !in columns ==> r == columns + [kind]
    ensures Distinct(columns) ==> Distinct(r)
  {
    if kind in columns then columns else columns + [kind]
  }

  // ---------------------------------------------------------------------------
  // One hit
  // ---------------------------------------------------------------------------

  /** Why the step raises: a 200 reply whose body is not JSON, a hit
      without `representasjonspunkt`, or a point without `øst` or `nord`. */
  datatype PlacesError = NotJson | NoPoint | MissingCoordinate

  /** `(representasjonspunkt['øst'], representasjonspunkt['nord'])`. */
  function HitXY(hit: PlaceName): (r: Result<XY, PlacesError>)
    ensures r.Success? <==> hit.point.Some? && hit.point.value.east.Some? && hit.point.value.north.Some?
    ensures r.Success? ==> hit.point == Some(Point(Some(r.value.1), Some(r.value.0)))
    ensures hit.point.None? ==> r == Failure(NoPoint)
  {
    if hit.point.None? then Failure(NoPoint)
    else if hit.point.value.east.None? || hit.point.value.north.None? then Failure(MissingCoordinate)
    else Success((hit.point.value.east.value, hit.point.value.north.value))
  }

  /** One hit for row `index`: its category's column exists afterwards and
      its cell in that row holds the hit's point; no other cell changes. */
  function RecordHit(sheet: Sheet, index: nat, hit: PlaceName): (r: Result<Sheet, PlacesError>)
    ensures r.Success? <==> HitXY(hit).Success?
    ensures r.Success? ==> r.value.columns == AddColumn(sheet.columns, hit.category)
    ensures r.Success? ==> forall row: nat, kind ::
              Cell(r.value, row, kind)
              == if row == index && kind == hit.category then Some(HitXY(hit).value) else Cell(sheet, row, kind)
  {
    match HitXY(hit)
    case Failure(e) => Failure(e)
    case Success(xy) =>
      Success(Sheet(AddColumn(sheet.columns, hit.category), sheet.cells[(index, hit.category) := xy]))
  }

  /** Recording a hit keeps a sheet well formed. */
  lemma RecordHitWellFormed(sheet: Sheet, index: nat, hit: PlaceName)
    requires WellFormed(sheet)
    requires RecordHit(sheet, index, hit).Success?
    ensures WellFormed(RecordHit(sheet, index, hit).value)
  {
  }

  // ---------------------------------------------------------------------------
  // One reply
  // ---------------------------------------------------------------------------

  /** The loop over `navn`: every hit in order, stopping at the first that
      raises. */
  function ApplyHits(sheet: Sheet, index: nat, hits: seq<PlaceName>): Result<Sheet, PlacesError>
    decreases |hits|
  {
    if hits == [] then Success(sheet)
    else
      match RecordHit(sheet, index, hits[0])
      case Failure(e) => Failure(e)
      case Success(next) => ApplyHits(next, index, hits[1..])
  }

  /** The point of the last hit of category `kind` among hits that all
      have one: the cell a loop over them leaves behind. */
  function LastXY(hits: seq<PlaceName>, kind: Option<string>): Option<XY>
  {
    if hits == [] then None
    else
      var later := LastXY(hits[1..], kind);
      if later.Some? then later
      else if hits[0].category == kind && HitXY(hits[0]).Success? then Some(HitXY(hits[0]).value)
      else None
  }

  /** There is a last point of category `kind` exactly when some hit of
      that category has a point, and it is the point of such a hit. */
  lemma {:induction false} LastXYFound(hits: seq<PlaceName>, kind: Option<string>)
    ensures LastXY(hits, kind).Some? <==> exists h :: h in hits && h.category == kind && HitXY(h).Success?
    ensures LastXY(hits, kind).Some? ==>
              exists h :: h in hits && h.category == kind && HitXY(h) == Success(LastXY(hits, kind).value)
    decreases |hits|
  {
    if hits != [] {
      LastXYFound(hits[1..], kind);
      assert forall h :: h in hits <==> h == hits[0] || h in hits[1..];
    }
  }

  /** The loop over `navn` raises exactly when some hit lacks a point or a
      coordinate. */
  lemma {:induction false} ApplyHitsSucceeds(sheet: Sheet, index: nat, hits: seq<PlaceName>)
    ensures ApplyHits(sheet, index, hits).Success? <==> forall h :: h in hits ==> HitXY(h).Success?
    decreases |hits|
  {
    if hits != [] {
      assert forall h :: h in hits <==> h == hits[0] || h in hits[1..];
      if HitXY(hits[0]).Success? {
        ApplyHitsSucceeds(RecordHit(sheet, index, hits[0]).value, index, hits[1..]);
      }
    }
  }

  /** Last write wins: after the loop, the cell of row `index` in column
      `kind` holds the point of the last hit of that category, or what it
      held before when there is none; other rows do not change. */
  lemma {:induction false} ApplyHitsCell(sheet: Sheet, index: nat, hits: seq<PlaceName>, row: nat, kind: Option<string>)
    requires ApplyHits(sheet, index, hits).Success?
    ensures Cell(ApplyHits(sheet, index, hits).value, row, kind)
            == if row == index && LastXY(hits, kind).Some? then LastXY(hits, kind) else Cell(sheet, row, kind)
    decreases |hits|
  {
    if hits != [] {
      ApplyHitsCell(RecordHit(sheet, index, hits[0]).value, index, hits[1..], row, kind);
    }
  }

  /** The loop only adds columns: the old ones stay first, every hit's
      category is a column afterwards, and the sheet stays well formed. */
  lemma {:induction false} ApplyHitsColumns(sheet: Sheet, index: nat, hits: seq<PlaceName>)
    requires ApplyHits(sheet, index, hits).Success?
    ensures var after := ApplyHits(sheet, index, hits).value;
            && sheet.columns <= after.columns
            && (forall h :: h in hits ==> h.category in after.columns)
            && (WellFormed(sheet) ==> WellFormed(after))
    decreases |hits|
  {
    if hits != [] {
      var next := RecordHit(sheet, index, hits[0]).value;
      if WellFormed(sheet) {
        RecordHitWellFormed(sheet, index, hits[0]);
      }
      ApplyHitsColumns(next, index, hits[1..]);
      assert forall h :: h in hits <==> h == hits[0] || h in hits[1..];
    }
  }

  /** A reply is handled without raising: it is not a 200, or it is JSON
      and every hit in `navn` has both coordinates. */
  predicate ReplyOk(reply: LookupReply)
  {
    reply.status != 200
    || (reply.body.Some? && forall h :: h in reply.body.value.names.GetOr([]) ==> HitXY(h).Success?)
  }

  /** The hits a reply contributes: those of `navn` for a 200 JSON reply
      (none when `navn` is missing), none otherwise. */
  function ReplyHits(reply: LookupReply): seq<PlaceName>
  {
    if reply.status == 200 && reply.body.Some? then reply.body.value.names.GetOr([]) else []
  }

  /** One place's reply: anything but a 200 is skipped, a 200 that is not
      JSON raises, and the hits of a JSON reply are stored. */
  function ApplyReply(sheet: Sheet, index: nat, reply: LookupReply): (r: Result<Sheet, PlacesError>)
    ensures reply.status != 200 ==> r == Success(sheet)
    ensures reply.status == 200 && reply.body.None? ==> r == Failure(NotJson)
  {
    if reply.status != 200 then Success(sheet)
    else if reply.body.None? then Failure(NotJson)
    else ApplyHits(sheet, index, reply.body.value.names.GetOr([]))
  }

  /** A reply is handled without raising exactly when it is acceptable, and
      then it acts as the loop over its hits. */
  lemma ApplyReplySucceeds(sheet: Sheet, index: nat, reply: LookupReply)
    ensures ApplyReply(sheet, index, reply).Success? <==> ReplyOk(reply)
    ensures ApplyReply(sheet, index, reply).Success? ==>
              ApplyReply(sheet, index, reply) == ApplyHits(sheet, index, ReplyHits(reply))
  {
    ApplyHitsSucceeds(sheet, index, ReplyHits(reply));
  }

  // ---------------------------------------------------------------------------
  // One row
  // ---------------------------------------------------------------------------

  /** `order` lists the set `places` once each: the order in which
      `list(set(...))` happens to yield them. */
  predicate Enumerates(order: seq<string>, places: set<string>)
  {
    Distinct(order) && (forall p :: p in order ==> p in places) && (forall p :: p in places ==> p in order)
  }

  /** The loop over a row's places, in the given order, each looked up with
      the fixed search parameters. */
  function UpdateRow(sheet: Sheet, index: nat, order: seq<string>, lookup: Gazetteer): Result<Sheet, PlacesError>
    decreases |order|
  {
    if order == [] then Success(sheet)
    else
      match ApplyReply(sheet, index, lookup(SearchFor(order[0])))
      case Failure(e) => Failure(e)
      case Success(next) => UpdateRow(next, index, order[1..], lookup)
  }

  /** The point a place's reply leaves in column `kind`. */
  function ReplyXY(reply: LookupReply, kind: Option<string>): Option<XY>
  {
    LastXY(ReplyHits(reply), kind)
  }

  /** The point the last place whose reply has a hit of category `kind`
      leaves behind. */
  function LastAnswer(lookup: Gazetteer, order: seq<string>, kind: Option<string>): Option<XY>
  {
    if order == [] then None
    else
      var later := LastAnswer(lookup, order[1..], kind);
      if later.Some? then later else ReplyXY(lookup(SearchFor(order[0])), kind)
  }

  /** Some place leaves a point in column `kind` exactly when the reply for
      some place of the row has a hit of that category with a point; the
      point is one of those. */
  lemma {:induction false} LastAnswerFound(lookup: Gazetteer, order: seq<string>, kind: Option<string>)
    ensures LastAnswer(lookup, order, kind).Some? <==>
              exists p :: p in order && ReplyXY(lookup(SearchFor(p)), kind).Some?
    ensures LastAnswer(lookup, order, kind).Some? ==>
              exists p :: p in order && ReplyXY(lookup(SearchFor(p)), kind) == LastAnswer(lookup, order, kind)
    decreases |order|
  {
    if order != [] {
      LastAnswerFound(lookup, order[1..], kind);
      assert forall p :: p in order <==> p == order[0] || p in order[1..];
    }
  }

  /** The row loop raises exactly when the reply for one of its places is
      not acceptable. */
  lemma {:induction false} UpdateRowSucceeds(sheet: Sheet, index: nat, order: seq<string>, lookup: Gazetteer)
    ensures UpdateRow(sheet, index, order, lookup).Success? <==>
              forall p :: p in order ==> ReplyOk(lookup(SearchFor(p)))
    decreases |order|
  {
    if order != [] {
      assert forall p :: p in order <==> p == order[0] || p in order[1..];
      ApplyReplySucceeds(sheet, index, lookup(SearchFor(order[0])));
      if ReplyOk(lookup(SearchFor(order[0]))) {
        UpdateRowSucceeds(ApplyReply(sheet, index, lookup(SearchFor(order[0]))).value, index, order[1..], lookup);
      }
    }
  }

  /** Last write wins across places: the cell of row `index` in column
      `kind` ends up with the point the last place with such a hit left,
      or keeps what it held; other rows do not change. */
  lemma {:induction false} UpdateRowCell(sheet: Sheet, index: nat, order: seq<string>, lookup: Gazetteer,
                                         row: nat, kind: Option<string>)
    requires UpdateRow(sheet, index, order, lookup).Success?
    ensures Cell(UpdateRow(sheet, index, order, lookup).value, row, kind)
            == if row == index && LastAnswer(lookup, order, kind).Some? then LastAnswer(lookup, order, kind)
               else Cell(sheet, row, kind)
    decreases |order|
  {
    if order != [] {
      var reply := lookup(SearchFor(order[0]));
      ApplyReplySucceeds(sheet, index, reply);
      var next := ApplyReply(sheet, index, reply).value;
      ApplyHitsCell(sheet, index, ReplyHits(reply), row, kind);
      UpdateRowCell(next, index, order[1..], lookup, row, kind);
    }
  }

  /** The row loop only adds columns and keeps the sheet well formed. */
  lemma {:induction false} UpdateRowColumns(sheet: Sheet, index: nat, order: seq<string>, lookup: Gazetteer)
    requires UpdateRow(sheet, index, order, lookup).Success?
    ensures sheet.columns <= UpdateRow(sheet, index, order, lookup).value.columns
    ensures WellFormed(sheet) ==> WellFormed(UpdateRow(sheet, index, order, lookup).value)
    decreases |order|
  {
    if order != [] {
      var reply := lookup(SearchFor(order[0]));
      ApplyReplySucceeds(sheet, index, reply);
      var next := ApplyReply(sheet, index, reply).value;
      ApplyHitsColumns(sheet, index, ReplyHits(reply));
      UpdateRowColumns(next, index, order[1..], lookup);
    }
  }

  // ---------------------------------------------------------------------------
  // The table
  // ---------------------------------------------------------------------------

  /** The loop over rows `from` onwards; `orders[i]` is the order row `i`'s
      places come in. */
  function FillRows(sheet: Sheet, orders: seq<seq<string>>, from: nat, lookup: Gazetteer): Result<Sheet, PlacesError>
    requires from <= |orders|
    decreases |orders| - from
  {
    if from == |orders| then Success(sheet)
    else
      match UpdateRow(sheet, from, orders[from], lookup)
      case Failure(e) => Failure(e)
      case Success(next) => FillRows(next, orders, from + 1, lookup)
  }

  /** The rows loop raises exactly when some reply for a place of a row
      from `from` on is not acceptable. */
  lemma {:induction false} FillRowsSucceeds(sheet: Sheet, orders: seq<seq<string>>, from: nat, lookup: Gazetteer)
    requires from <= |orders|
    ensures FillRows(sheet, orders, from, lookup).Success? <==>
              forall i, p :: from <= i < |orders| && p in orders[i] ==> ReplyOk(lookup(SearchFor(p)))
    decreases |orders| - from
  {
    if from < |orders| {
      UpdateRowSucceeds(sheet, from, orders[from], lookup);
      var r := UpdateRow(sheet, from, orders[from], lookup);
      if r.Success? {
        FillRowsSucceeds(r.value, orders, from + 1, lookup);
      }
    }
  }

  /** Each row's cells are settled by its own places: rows from `from` on
      get their last answers, the others keep theirs. */
  lemma {:induction false} FillRowsCell(sheet: Sheet, orders: seq<seq<string>>, from: nat, lookup: Gazetteer,
                                        row: nat, kind: Option<string>)
    requires from <= |orders|
    requires FillRows(sheet, orders, from, lookup).Success?
    ensures Cell(FillRows(sheet, orders, from, lookup).value, row, kind)
            == if from <= row < |orders| && LastAnswer(lookup, orders[row], kind).Some?
               then LastAnswer(lookup, orders[row], kind)
               else Cell(sheet, row, kind)
    decreases |orders| - from
  {
    if from < |orders| {
      var next := UpdateRow(sheet, from, orders[from], lookup).value;
      UpdateRowCell(sheet, from, orders[from], lookup, row, kind);
      FillRowsCell(next, orders, from + 1, lookup, row, kind);
    }
  }

  /** The rows loop only adds columns and keeps the sheet well formed. */
  lemma {:induction false} FillRowsColumns(sheet: Sheet, orders: seq<seq<string>>, from: nat, lookup: Gazetteer)
    requires from <= |orders|
    requires FillRows(sheet, orders, from, lookup).Success?
    ensures sheet.columns <= FillRows(sheet, orders, from, lookup).value.columns
    ensures WellFormed(sheet) ==> WellFormed(FillRows(sheet, orders, from, lookup).value)
    decreases |orders| - from
  {
    if from < |orders| {
      var next := UpdateRow(sheet, from, orders[from], lookup).value;
      UpdateRowColumns(sheet, from, orders[from], lookup);
      FillRowsColumns(next, orders, from + 1, lookup);
    }
  }

  /** The places of every row, each listed in the order its set yields
      them. */
  predicate Orders(records: seq<GeoRecord>, orders: seq<seq<string>>)
  {
    |orders| == |records| && forall i :: 0 <= i < |records| ==> Enumerates(orders[i], CleanPlaces(records[i].stedinfo))
  }

  /** The whole step over the fetched table, starting with its own columns
      and no points. */
  function HentStedsinformasjon(records: seq<GeoRecord>, orders: seq<seq<string>>, lookup: Gazetteer): (r: Result<Sheet, PlacesError>)
    requires Orders(records, orders)
  {
    FillRows(Sheet(InitialColumns(records), map[]), orders, 0, lookup)
  }

  /** The step raises exactly when the reply for some place of some row is
      not acceptable, whatever order the places come in. */
  lemma StepSucceeds(records: seq<GeoRecord>, orders: seq<seq<string>>, lookup: Gazetteer)
    requires Orders(records, orders)
    ensures HentStedsinformasjon(records, orders, lookup).Success? <==>
              forall i, p :: 0 <= i < |records| && p in CleanPlaces(records[i].stedinfo) ==> ReplyOk(lookup(SearchFor(p)))
  {
    FillRowsSucceeds(Sheet(InitialColumns(records), map[]), orders, 0, lookup);
    forall i, p | 0 <= i < |records|
      ensures p in orders[i] <==> p in CleanPlaces(records[i].stedinfo)
    {
      assert Enumerates(orders[i], CleanPlaces(records[i].stedinfo));
    }
  }

  /** The resulting sheet keeps the fetched columns first and is well
      formed: unique labels, every point in a column. */
  lemma StepColumns(records: seq<GeoRecord>, orders: seq<seq<string>>, lookup: Gazetteer)
    requires Orders(records, orders)
    requires HentStedsinformasjon(records, orders, lookup).Success?
    ensures InitialColumns(records) <= HentStedsinformasjon(records, orders, lookup).value.columns
    ensures WellFormed(HentStedsinformasjon(records, orders, lookup).value)
  {
    FillRowsColumns(Sheet(InitialColumns(records), map[]), orders, 0, lookup);
  }

  /** The cell of a row in a column holds the point the last of the row's
      places with a hit of that category left; only fetched rows have
      points. */
  lemma StepCell(records: seq<GeoRecord>, orders: seq<seq<string>>, lookup: Gazetteer, row: nat, kind: Option<string>)
    requires Orders(records, orders)
    requires HentStedsinformasjon(records, orders, lookup).Success?
    ensures Cell(HentStedsinformasjon(records, orders, lookup).value, row, kind)
            == if row < |records| then LastAnswer(lookup, orders[row], kind) else None
  {
    FillRowsCell(Sheet(InitialColumns(records), map[]), orders, 0, lookup, row, kind);
  }

  /** Which cells hold a point does not depend on the order of the places:
      a row has a point in column `kind` exactly when one of its places'
      replies has a hit of that category, and the point is one such hit's. */
  lemma StepCellFilled(records: seq<GeoRecord>, orders: seq<seq<string>>, lookup: Gazetteer, row: nat, kind: Option<string>)
    requires Orders(records, orders)
    requires HentStedsinformasjon(records, orders, lookup).Success?
    requires row < |records|
    ensures var cell := Cell(HentStedsinformasjon(records, orders, lookup).value, row, kind);
            && (cell.Some? <==> exists p :: p in CleanPlaces(records[row].stedinfo) && ReplyXY(lookup(SearchFor(p)), kind).Some?)
            && (cell.Some? ==> exists p :: p in CleanPlaces(records[row].stedinfo) && ReplyXY(lookup(SearchFor(p)), kind) == cell)
  {
    StepCell(records, orders, lookup, row, kind);
    LastAnswerFound(lookup, orders[row], kind);
  }
}
