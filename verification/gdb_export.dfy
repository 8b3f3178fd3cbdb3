/** `sanitize_name` and `opprett_geodatabase` of the geodatabase script:
    the table names it derives, the rows of the main table, and the point
    rows it writes for every category column. The geodatabase itself is
    represented by what would be inserted into it. */
module GdbExport {
  import opened Wrappers
  import opened Text
  import opened PlaceLookup
  import opened GdbFetch
  import opened GdbPlaces

  // ---------------------------------------------------------------------------
  // Table names (`sanitize_name`)
  // ---------------------------------------------------------------------------

  /** A character the sanitised name keeps: `e.isalnum() or e == '_'`. */
  predicate NameChar(c: char)
  {
    IsAlnum(c) || c == '_'
  }

  /** A name `sanitize_name` would leave alone: not empty, only letters,
      digits and `_`, and not starting with a digit. */
  predicate ValidName(name: string)
  {
    name != [] && (forall c :: c in name ==> NameChar(c)) && !IsDigit(name[0])
  }

  /** `''.join(e for e in name if e.isalnum() or e == '_')`. */
  function KeepNameChars(s: string): (r: string)
    ensures forall c :: c in r ==> NameChar(c)
    ensures |r| <= |s|
  {
    if s == [] then []
    else (if NameChar(s[0]) then [s[0]] else []) + KeepNameChars(s[1..])
  }

  /** Filtering keeps a string of name characters as it is, and leaves
      nothing exactly when the string has no name character. */
  lemma {:induction false} KeepNameCharsFacts(s: string)
    ensures (forall c :: c in s ==> NameChar(c)) ==> KeepNameChars(s) == s
    ensures KeepNameChars(s) == [] <==> forall c :: c in s ==> !NameChar(c)
    decreases |s|
  {
    if s != [] {
      KeepNameCharsFacts(s[1..]);
      assert forall c :: c in s <==> c == s[0] || c in s[1..];
      assert [s[0]] + s[1..] == s;
    }
  }

  /** One character is kept exactly when it is a name character. */
  lemma KeepNameCharsOne(c: char)
    ensures KeepNameChars([c]) == if NameChar(c) then [c] else []
  {
    assert [c][1..] == [];
  }

  /** Filtering works character by character: the kept characters of a
      concatenation are those of each part, in order. With
      `KeepNameCharsOne` this says that every letter, digit and `_` is
      kept, in its place, and nothing else. */
  lemma {:induction false} KeepNameCharsAppend(a: string, b: string)
    ensures KeepNameChars(a + b) == KeepNameChars(a) + KeepNameChars(b)
    decreases |a|
  {
    if a == [] {
      assert a + b == b;
    } else {
      assert (a + b)[0] == a[0];
      assert (a + b)[1..] == a[1..] + b;
      KeepNameCharsAppend(a[1..], b);
      var head := if NameChar(a[0]) then [a[0]] else [];
      AppendAssoc(head, KeepNameChars(a[1..]), KeepNameChars(b));
    }
  }

  /** The prefix put before a name starting with a digit. */
  const DigitPrefix: string := "fc_"

  /** Why the script raises: a name with nothing left after filtering has
      no first character to test (`IndexError`). */
  datatype ExportError = NothingLeft

  /** `name` with spaces as `_` and every other character that is not a
      letter or digit dropped. */
  function Kept(name: string): string
  {
    KeepNameChars(ReplaceChar(name, ' ', '_'))
  }

  /** The characters of `name` with spaces turned into `_`. */
  lemma UnderscoredChars(name: string, c: char)
    ensures c in ReplaceChar(name, ' ', '_') <==> (c in name && c != ' ') || (c == '_' && ' ' in name)
  {
    var underscored := ReplaceChar(name, ' ', '_');
    if c in underscored {
      var i :| 0 <= i < |underscored| && underscored[i] == c;
      assert name[i] in name;
    }
    if c in name && c != ' ' {
      var i :| 0 <= i < |name| && name[i] == c;
      assert underscored[i] == c;
    }
    if c == '_' && ' ' in name {
      var i :| 0 <= i < |name| && name[i] == ' ';
      assert underscored[i] == c;
    }
  }

  /** Nothing is left exactly when the name has no space, letter, digit or
      `_`. */
  lemma KeptEmpty(name: string)
    ensures Kept(name) == [] <==> forall c :: c in name ==> c != ' ' && !NameChar(c)
  {
    var underscored := ReplaceChar(name, ' ', '_');
    KeepNameCharsFacts(underscored);
    forall c
      ensures c in underscored <==> (c in name && c != ' ') || (c == '_' && ' ' in name)
    {
      UnderscoredChars(name, c);
    }
    assert NameChar('_');
    if ' ' in name {
      assert '_' in underscored;
    }
  }

  /** `sanitize_name`: it raises exactly when the name has no space, letter,
      digit or `_`; otherwise the result is a valid name, the filtered name
      itself or, when that starts with a digit, with `fc_` in front. */
  function SanitizeName(name: string): (r: Result<string, ExportError>)
    ensures r.Failure? <==> forall c :: c in name ==> c != ' ' && !NameChar(c)
    ensures r.Success? ==> ValidName(r.value)
    ensures r.Success? ==> Kept(name) != [] && r.value == (if IsDigit(Kept(name)[0]) then DigitPrefix + Kept(name) else Kept(name))
  {
    KeptEmpty(name);
    var kept := Kept(name);
    if kept == [] then Failure(NothingLeft)
    else
      assert kept[0] in kept;
      if IsDigit(kept[0]) then
        assert forall c :: c in DigitPrefix + kept ==> c in DigitPrefix || c in kept;
        Success(DigitPrefix + kept)
      else Success(kept)
  }

  /** A valid name is its own sanitised form. */
  lemma SanitizeValid(name: string)
    requires ValidName(name)
    ensures SanitizeName(name) == Success(name)
  {
    assert !NameChar(' ');
    ReplaceCharAbsent(name, ' ', '_');
    KeepNameCharsFacts(name);
  }

  /** Sanitising is idempotent. */
  lemma SanitizeIdempotent(name: string)
    requires SanitizeName(name).Success?
    ensures SanitizeName(SanitizeName(name).value) == SanitizeName(name)
  {
    SanitizeValid(SanitizeName(name).value);
  }

  // ---------------------------------------------------------------------------
  // The main table
  // ---------------------------------------------------------------------------

  /** A row of the main table: `tabell_id`, `tittel`, `thumbnail`. */
  datatype MainRow = MainRow(id: nat, tittel: Option<string>, thumbnail: Option<string>)

  /** One main-table row per fetched row, in order, numbered from 0. */
  function MainRows(records: seq<GeoRecord>): (rows: seq<MainRow>)
    ensures |rows| == |records|
    ensures forall i :: 0 <= i < |rows| ==>
              rows[i].id == i && rows[i].tittel == records[i].title && rows[i].thumbnail == records[i].thumbnailMedium
  {
    seq(|records|, i requires 0 <= i < |records| => MainRow(i, records[i].title, records[i].thumbnailMedium))
  }

  // ---------------------------------------------------------------------------
  // Point tables
  // ---------------------------------------------------------------------------

  /** The columns that are never exported as points. */
  const FixedColumns: set<string> := {"title", "thumbnail_medium", "stedinfo", "koordinater"}

  /** The category that gets a point in every row. */
  const NationCategory: string := "Nasjon"

  /** The point used for a row without a `Nasjon` point (near Steinkjer). */
  const NorwayDefault: XY := (368304.0, 7098745.0)

  /** A column that gets a point table: a missing category does too. */
  predicate IsPointColumn(kind: Option<string>)
  {
    kind.None? || kind.value !in FixedColumns
  }

  /** The column label as an f-string renders it. */
  function LabelText(kind: Option<string>): string
  {
    if kind.None? then "None" else kind.value
  }

  /** The name of a category's point table: the prefix, `_` and the label,
      sanitised. The `_` always survives, so this never raises. */
  function PointTableName(prefix: string, kind: Option<string>): (name: string)
    ensures ValidName(name)
    ensures SanitizeName(prefix + "_" + LabelText(kind)) == Success(name)
  {
    var raw := prefix + "_" + LabelText(kind);
    assert raw[|prefix|] == '_';
    assert raw[|prefix|] in raw;
    SanitizeName(raw).value
  }

  /** A row of a point table: `tabell_id` and `SHAPE@XY`. */
  datatype PointRow = PointRow(id: nat, xy: XY)

  /** The point written for a row in a category's table: the row's cell, or
      for `Nasjon` the default point when the cell is empty. */
  function RowPoint(sheet: Sheet, row: nat, kind: Option<string>): (p: Option<XY>)
    ensures kind == Some(NationCategory) ==> p.Some?
    ensures Cell(sheet, row, kind).Some? ==> p == Cell(sheet, row, kind)
  {
    var cell := Cell(sheet, row, kind);
    if cell.None? && kind == Some(NationCategory) then Some(NorwayDefault) else cell
  }

  /** The rows inserted into a category's table for the first `n` rows. */
  function PointRows(sheet: Sheet, kind: Option<string>, n: nat): (rows: seq<PointRow>)
    ensures |rows| <= n
    ensures forall i :: 0 <= i < |rows| ==> rows[i].id < n
  {
    if n == 0 then []
    else
      var p := RowPoint(sheet, n - 1, kind);
      PointRows(sheet, kind, n - 1) + (if p.Some? then [PointRow(n - 1, p.value)] else [])
  }

  /** A category's table holds a row for exactly the rows with a point,
      with that point. */
  lemma {:induction false} PointRowsMembers(sheet: Sheet, kind: Option<string>, n: nat)
    ensures var rows := PointRows(sheet, kind, n);
            forall i: nat, xy :: PointRow(i, xy) in rows <==> i < n && RowPoint(sheet, i, kind) == Some(xy)
    decreases n
  {
    if n > 0 {
      PointRowsMembers(sheet, kind, n - 1);
      var prev := PointRows(sheet, kind, n - 1);
      var p := RowPoint(sheet, n - 1, kind);
      var last := if p.Some? then [PointRow(n - 1, p.value)] else [];
      assert PointRows(sheet, kind, n) == prev + last;
      forall i: nat, xy
        ensures PointRow(i, xy) in prev + last <==> i < n && RowPoint(sheet, i, kind) == Some(xy)
      {
        assert PointRow(i, xy) in prev + last <==> PointRow(i, xy) in prev || PointRow(i, xy) in last;
      }
    }
  }

  /** The rows are listed in increasing row order. */
  predicate IdsIncreasing(rows: seq<PointRow>)
  {
    forall a, b :: 0 <= a < b < |rows| ==> rows[a].id < rows[b].id
  }

  /** Appending a row numbered above every listed one keeps the order. */
  lemma IdsIncreasingSnoc(rows: seq<PointRow>, last: PointRow)
    requires IdsIncreasing(rows)
    requires forall i :: 0 <= i < |rows| ==> rows[i].id < last.id
    ensures IdsIncreasing(rows + [last])
  {
    var all := rows + [last];
    forall a, b | 0 <= a < b < |all|
      ensures all[a].id < all[b].id
    {
      assert all[a] == rows[a];
      if b < |rows| {
        assert all[b] == rows[b];
      }
    }
  }

  /** A category's table lists its rows in increasing row order. */
  lemma {:induction false} PointRowsIncreasing(sheet: Sheet, kind: Option<string>, n: nat)
    ensures IdsIncreasing(PointRows(sheet, kind, n))
    decreases n
  {
    if n > 0 {
      PointRowsIncreasing(sheet, kind, n - 1);
      var p := RowPoint(sheet, n - 1, kind);
      if p.Some? {
        IdsIncreasingSnoc(PointRows(sheet, kind, n - 1), PointRow(n - 1, p.value));
      } else {
        assert PointRows(sheet, kind, n) == PointRows(sheet, kind, n - 1);
      }
    }
  }

  /** A category's table holds a row for exactly the rows with a point, with
      that point, in increasing row order. */
  lemma {:induction false} PointRowsExact(sheet: Sheet, kind: Option<string>, n: nat)
    ensures var rows := PointRows(sheet, kind, n);
            && (forall i: nat, xy :: PointRow(i, xy) in rows <==> i < n && RowPoint(sheet, i, kind) == Some(xy))
            && IdsIncreasing(rows)
  {
    PointRowsMembers(sheet, kind, n);
    PointRowsIncreasing(sheet, kind, n);
  }

  /** The `Nasjon` table has a row for every row. */
  lemma {:induction false} NationEveryRow(sheet: Sheet, n: nat)
    ensures |PointRows(sheet, Some(NationCategory), n)| == n
    decreases n
  {
    if n > 0 {
      NationEveryRow(sheet, n - 1);
    }
  }

  /** A point table: its name and the rows inserted. */
  datatype PointTable = PointTable(name: string, kind: Option<string>, rows: seq<PointRow>)

  /** One table per exported column, in column order. */
  function PointTables(sheet: Sheet, columns: seq<Option<string>>, prefix: string, n: nat): seq<PointTable>
  {
    if columns == [] then []
    else
      var rest := PointTables(sheet, columns[1..], prefix, n);
      if IsPointColumn(columns[0]) then
        [PointTable(PointTableName(prefix, columns[0]), columns[0], PointRows(sheet, columns[0], n))] + rest
      else rest
  }

  /** The tables are those of the exported columns, in order, each named
      after its column and holding its points. */
  lemma {:induction false} PointTablesShape(sheet: Sheet, columns: seq<Option<string>>, prefix: string, n: nat)
    ensures var tables := PointTables(sheet, columns, prefix, n);
            && (forall t :: t in tables ==>
                  t.kind in columns && IsPointColumn(t.kind)
                  && t.name == PointTableName(prefix, t.kind) && t.rows == PointRows(sheet, t.kind, n))
            && (forall k :: k in columns && IsPointColumn(k) ==> exists t :: t in tables && t.kind == k)
    decreases |columns|
  {
    if columns != [] {
      PointTablesShape(sheet, columns[1..], prefix, n);
      assert forall k :: k in columns <==> k == columns[0] || k in columns[1..];
    }
  }

  /** Everything the step writes. */
  datatype Geodatabase = Geodatabase(mainName: string, mainRows: seq<MainRow>, pointTables: seq<PointTable>)

  /** `opprett_geodatabase` on a fresh geodatabase: it raises only when the
      main table's name has nothing left to sanitise. */
  function OpprettGeodatabase(records: seq<GeoRecord>, sheet: Sheet, mainName: string, prefix: string): (r: Result<Geodatabase, ExportError>)
    ensures r.Failure? <==> SanitizeName(mainName).Failure?
    ensures r.Success? ==> ValidName(r.value.mainName) && |r.value.mainRows| == |records|
  {
    match SanitizeName(mainName)
    case Failure(e) => Failure(e)
    case Success(name) =>
      Success(Geodatabase(name, MainRows(records), PointTables(sheet, sheet.columns, prefix, |records|)))
  }

  /** End to end: after places were looked up for the fetched rows, a
      category's table has a row for a fetched row exactly when that row's
      places gave a point of that category, with the last such point; for
      `Nasjon`, a row without one gets the default point. */
  lemma ExportedPoint(records: seq<GeoRecord>, orders: seq<seq<string>>, lookup: Gazetteer,
                      mainName: string, prefix: string, row: nat, kind: Option<string>, xy: XY)
    requires Orders(records, orders)
    requires HentStedsinformasjon(records, orders, lookup).Success?
    requires OpprettGeodatabase(records, HentStedsinformasjon(records, orders, lookup).value, mainName, prefix).Success?
    ensures var sheet := HentStedsinformasjon(records, orders, lookup).value;
            var gdb := OpprettGeodatabase(records, sheet, mainName, prefix).value;
            forall t :: t in gdb.pointTables && t.kind == kind ==>
              (PointRow(row, xy) in t.rows <==>
                 row < |records|
                 && (LastAnswer(lookup, orders[row], kind) == Some(xy)
                     || (kind == Some(NationCategory) && LastAnswer(lookup, orders[row], kind).None? && xy == NorwayDefault)))
  {
    var sheet := HentStedsinformasjon(records, orders, lookup).value;
    PointTablesShape(sheet, sheet.columns, prefix, |records|);
    PointRowsExact(sheet, kind, |records|);
    StepCell(records, orders, lookup, row, kind);
  }
}
