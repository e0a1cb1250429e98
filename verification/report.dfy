/**
 * The upload handler: the checks on the uploaded file, the four summary
 * tables built from the kept rows, and their finalisation for display.
 */
module Report {
  import opened Wrappers
  import opened Decimal
  import opened Lists
  import opened UsageCsv
  import opened Reducer
  import opened Precision

  /** A table under its name in the result. */
  datatype Named<T> = Named(name: string, table: T)

  /**
   * A bucket as it is displayed: Cost ($) is now the padded string, and
   * Repositories the joined list, absent from the "Per Repository" table.
   */
  datatype FinalRow = FinalRow(group: string, minutes: nat, cost: string, repositories: Option<string>)

  datatype FinalEntry = FinalEntry(key: string, row: FinalRow)

  type FinalTable = seq<FinalEntry>

  /** The four tables, in the order the result lists them, and the column each groups by. */
  const Names: seq<string> := ["Per Day", "Per User", "Per Workflow", "Per Repository"]
  const Dimensions: seq<Dimension> := [ByDate, ByUsername, ByWorkflow, ByRepository]

  /** Four tables, under the four names, in order. */
  predicate InNameOrder<T>(ts: seq<Named<T>>)
  {
    && |ts| == 4
    && ts[0].name == Names[0] && ts[1].name == Names[1] && ts[2].name == Names[2] && ts[3].name == Names[3]
  }

  /**
   * The four folds, in order; the first one to throw ends the analysis.
   * They all succeed exactly when every row is in minutes, and then give
   * the four tables under their names.
   */
  function Aggregate(rows: seq<UsageRow>): (r: Result<seq<Named<Table>>>)
    ensures r.Err? <==> !AllMinutes(rows)
    ensures r.Err? ==> exists i :: 0 <= i < |rows| && rows[i].unitType != "minute" && r.message == UnitTypeError(rows[i].unitType)
    ensures r.Ok? ==> r.value == ExpectedTables(rows)
  {
    match ReduceBy(ByDate, rows)
    case Err(m) => Err(m)
    case Ok(perDay) =>
      ReduceByOkAllMinutes(ByDate, rows);
      match ReduceBy(ByUsername, rows)
      case Err(m) => Err(m)
      case Ok(perUser) =>
        match ReduceBy(ByWorkflow, rows)
        case Err(m) => Err(m)
        case Ok(perWorkflow) =>
          match ReduceBy(ByRepository, rows)
          case Err(m) => Err(m)
          case Ok(perRepository) =>
            ReduceByAllMinutes(ByDate, rows);
            ReduceByAllMinutes(ByUsername, rows);
            ReduceByAllMinutes(ByWorkflow, rows);
            ReduceByAllMinutes(ByRepository, rows);
            ExpectedTablesInOrder(rows);
            Ok([Named("Per Day", perDay), Named("Per User", perUser),
                Named("Per Workflow", perWorkflow), Named("Per Repository", perRepository)])
  }

  /** The four tables the folds should give, stated without the folds. */
  function ExpectedTables(rows: seq<UsageRow>): seq<Named<Table>>
  {
    seq(4, n requires 0 <= n < 4 => Named(Names[n], Expected(Dimensions[n], rows)))
  }

  lemma ExpectedTablesInOrder(rows: seq<UsageRow>)
    ensures ExpectedTables(rows) == [Named("Per Day", Expected(ByDate, rows)), Named("Per User", Expected(ByUsername, rows)),
                                     Named("Per Workflow", Expected(ByWorkflow, rows)), Named("Per Repository", Expected(ByRepository, rows))]
  {
    var e := ExpectedTables(rows);
    assert e[0] == Named("Per Day", Expected(ByDate, rows));
    assert e[1] == Named("Per User", Expected(ByUsername, rows));
    assert e[2] == Named("Per Workflow", Expected(ByWorkflow, rows));
    assert e[3] == Named("Per Repository", Expected(ByRepository, rows));
  }

  /** Otherwise the first fold throws, on the first row that is not in minutes. */
  lemma AggregateErr(rows: seq<UsageRow>)
    requires !AllMinutes(rows)
    ensures Aggregate(rows) == Err(UnitTypeError(rows[FirstOther(rows)].unitType))
  {
    ReduceByThrows(ByDate, rows, FirstOther(rows));
  }

  /** The display form of one bucket: padded cost, and the distinct repositories joined unless the table is per repository. */
  function FinalizeEntry(name: string, e: Entry, desired: nat): FinalEntry
  {
    FinalEntry(e.key, FinalRow(
      e.bucket.group,
      e.bucket.minutes,
      PadCost(Render(e.bucket.cost), desired),
      if name == "Per Repository" then None else Some(Join(", ", Dedup(e.bucket.repositories)))))
  }

  /**
   * What the display form of a bucket keeps: the same key, label and
   * Minutes; the cost written with the larger of its own and the desired
   * decimals, reading back as the same amount; and the repositories, unless
   * the table is per repository.
   */
  lemma FinalizeEntryDisplay(name: string, e: Entry, desired: nat)
    ensures var r := FinalizeEntry(name, e, desired);
      && r.key == e.key && r.row.group == e.bucket.group && r.row.minutes == e.bucket.minutes
      && DecimalPlaces(r.row.cost) == Max(Canonical(e.bucket.cost).places, desired)
      && Value(ParseDecimal(r.row.cost)) == Value(e.bucket.cost)
      && (r.row.repositories.None? <==> name == "Per Repository")
  {
    var c := e.bucket.cost;
    PadCostPlaces(Render(c), desired);
    DecimalPlacesOfRender(c);
    PadCostKeepsValue(c, desired);
  }

  /** A table in display form: its entries, in order, each through FinalizeEntry. */
  function FinalizeTable(name: string, t: Table, desired: nat): (r: FinalTable)
    ensures |r| == |t|
  {
    if t == [] then [] else FinalizeTable(name, t[..|t| - 1], desired) + [FinalizeEntry(name, t[|t| - 1], desired)]
  }

  lemma {:induction false} FinalizeTableAt(name: string, t: Table, desired: nat, i: nat)
    requires i < |t|
    ensures FinalizeTable(name, t, desired)[i] == FinalizeEntry(name, t[i], desired)
  {
    if i < |t| - 1 {
      FinalizeTableAt(name, t[..|t| - 1], desired, i);
    }
  }

  /** Every table in display form, under its name, in order. */
  function FinalizeAll(tables: seq<Named<Table>>, desired: nat): (r: seq<Named<FinalTable>>)
    ensures |r| == |tables|
  {
    if tables == [] then []
    else
      var t := tables[|tables| - 1];
      FinalizeAll(tables[..|tables| - 1], desired) + [Named(t.name, FinalizeTable(t.name, t.table, desired))]
  }

  lemma {:induction false} FinalizeAllAt(tables: seq<Named<Table>>, desired: nat, n: nat)
    requires n < |tables|
    ensures FinalizeAll(tables, desired)[n] == Named(tables[n].name, FinalizeTable(tables[n].name, tables[n].table, desired))
  {
    if n < |tables| - 1 {
      FinalizeAllAt(tables[..|tables| - 1], desired, n);
    }
  }

  /**
   * The body of the finalisation loop, for one row of table `name`, written
   * as the statements the loop runs; FinalizeEntry is the same value as a
   * function, so that FinalizeTable and the lemmas can speak of it.
   */
  method FinalizeOne(name: string, e: Entry, desired: nat) returns (entry: FinalEntry)
    ensures entry == FinalizeEntry(name, e, desired)
  {
    var repositories: Option<string>;
    if name == "Per Repository" {
      repositories := None;
    } else {
      repositories := Some(Join(", ", Dedup(e.bucket.repositories)));
    }
    var cost := PadCost(Render(e.bucket.cost), desired);
    entry := FinalEntry(e.key, FinalRow(e.bucket.group, e.bucket.minutes, cost, repositories));
  }

  lemma FinalizeTablePrefix(name: string, t: Table, desired: nat, i: nat)
    requires i < |t|
    ensures FinalizeTable(name, t[..i + 1], desired) == FinalizeTable(name, t[..i], desired) + [FinalizeEntry(name, t[i], desired)]
  {
    assert t[..i + 1][..i] == t[..i];
  }

  /** The inner loop of the finalisation: every row of one table, in order, is put in display form. */
  method FinalizeRows(name: string, table: Table, desired: nat) returns (rows: FinalTable)
    ensures rows == FinalizeTable(name, table, desired)
  {
    rows := [];
    var i := 0;
    while i < |table|
      invariant 0 <= i <= |table|
      invariant rows == FinalizeTable(name, table[..i], desired)
    {
      var entry := FinalizeOne(name, table[i], desired);
      FinalizeTablePrefix(name, table, desired, i);
      rows := rows + [entry];
      i := i + 1;
    }
    assert table[..i] == table;
  }

  /** The finalisation loop over the tables: every table is put in display form, under its name. */
  method Finalize(tables: seq<Named<Table>>, desired: nat) returns (out: seq<Named<FinalTable>>)
    ensures out == FinalizeAll(tables, desired)
  {
    out := [];
    var n := 0;
    while n < |tables|
      invariant 0 <= n <= |tables|
      invariant out == FinalizeAll(tables[..n], desired)
    {
      var rows := FinalizeRows(tables[n].name, tables[n].table, desired);
      assert tables[..n + 1][..n] == tables[..n];
      out := out + [Named(tables[n].name, rows)];
      n := n + 1;
    }
    assert tables[..n] == tables;
  }

  // ---------------------------------------------------------------------
  // The upload.

  /**
   * The uploaded `usage_report` file: the MIME type the browser declared,
   * if any, and its lines as `fgetcsv` reads them, or None when the
   * temporary file cannot be opened.
   */
  datatype Upload = Upload(declaredType: Option<string>, contents: Option<seq<Line>>)

  /**
   * What the handler ends with: no upload; a rejection with the message it
   * echoes; an uncaught error with its message; or the finalised tables.
   */
  datatype Outcome = NoUpload | Rejected(message: string) | Fatal(message: string) | Analyzed(tables: seq<Named<FinalTable>>)

  const UploadError := "There was an error uploading the files."
  const NotCsv := "You must upload a file in the CSV format."
  const CannotOpen := "Could not open uploaded file."
  /** The TypeError `array_flip` raises when `fgetcsv` found no header line. */
  const FlipError := "array_flip(): Argument #1 ($array) must be of type array, bool given"

  /**
   * The analysis of a file whose first line is `header` and whose data lines
   * are `lines`: rejected exactly when the header lacks a label, fatal
   * exactly when a kept row is not in minutes, and otherwise the four tables.
   */
  function AnalyzeCsv(header: Line, lines: seq<Line>): (r: Outcome)
    ensures r.Rejected? <==> !HasAllLabels(header)
    ensures r.Fatal? <==> HasAllLabels(header) && !AllMinutes(KeptRows(header, lines))
    ensures r.Analyzed? ==> InNameOrder(r.tables)
    ensures !r.NoUpload?
  {
    var missing := MissingLabels(header);
    MissingLabelsEmpty(header);
    if missing != [] then Rejected(MissingMessage(missing))
    else AnalyzeRows(KeptRows(header, lines))
  }

  /** The analysis of the kept rows: the four folds, then the finalisation at the desired decimals. */
  function AnalyzeRows(rows: seq<UsageRow>): (r: Outcome)
    ensures r.Fatal? <==> !AllMinutes(rows)
    ensures r.Analyzed? ==> InNameOrder(r.tables)
    ensures r.Fatal? || r.Analyzed?
  {
    match Aggregate(rows)
    case Err(m) => Fatal(m)
    case Ok(tables) =>
      var desired := DesiredPlaces(rows);
      FinalizeAllAt(tables, desired, 0);
      FinalizeAllAt(tables, desired, 1);
      FinalizeAllAt(tables, desired, 2);
      FinalizeAllAt(tables, desired, 3);
      Analyzed(FinalizeAll(tables, desired))
  }

  /** `handle_file_upload`, from the upload to its outcome. */
  function Analyze(upload: Option<Upload>): (o: Outcome)
    ensures o.NoUpload? <==> upload.None?
  {
    if upload.None? then NoUpload
    else if upload.value.declaredType.None? then Rejected(UploadError)
    else if upload.value.declaredType.value != "text/csv" then Rejected(NotCsv)
    else if upload.value.contents.None? then Rejected(CannotOpen)
    else if upload.value.contents.value == [] then Fatal(FlipError)
    else AnalyzeCsv(upload.value.contents.value[0], upload.value.contents.value[1..])
  }

  /**
   * The handler: the checks with early returns, the reading loop, the folds
   * and the finalisation loop, with the cost padding as intended.
   */
  method HandleFileUpload(upload: Option<Upload>) returns (o: Outcome)
    ensures o == Analyze(upload)
  {
    if upload.None? {
      return NoUpload;
    }
    var u := upload.value;
    if u.declaredType.None? {
      return Rejected(UploadError);
    }
    if u.declaredType.value != "text/csv" {
      return Rejected(NotCsv);
    }
    if u.contents.None? {
      return Rejected(CannotOpen);
    }
    var file := u.contents.value;
    if file == [] {
      return Fatal(FlipError);
    }
    var header := file[0];
    var missing := MissingLabels(header);
    if missing != [] {
      return Rejected(MissingMessage(missing));
    }
    MissingLabelsEmpty(header);
    var rows := ReadRows(header, file[1..]);
    var desired := DesiredPlaces(rows);
    var tables := Aggregate(rows);
    if tables.Err? {
      return Fatal(tables.message);
    }
    var report := Finalize(tables.value, desired);
    return Analyzed(report);
  }

  // ---------------------------------------------------------------------
  // What the handler promises.

  /** A file without a declared type, or declared as anything but CSV, is rejected whatever it holds. */
  lemma AnalyzeNotCsv(u: Upload)
    requires u.declaredType != Some("text/csv")
    ensures Analyze(Some(u)) == Rejected(if u.declaredType.None? then UploadError else NotCsv)
  {
  }

  /** A CSV file whose header lacks a label of the field mapping is rejected, naming the missing labels. */
  lemma AnalyzeMissingLabels(u: Upload, header: Line, lines: seq<Line>)
    requires u.declaredType == Some("text/csv") && u.contents == Some([header] + lines)
    requires !HasAllLabels(header)
    ensures MissingLabels(header) != []
    ensures Analyze(Some(u)) == Rejected(MissingMessage(MissingLabels(header)))
  {
    MissingLabelsEmpty(header);
    assert ([header] + lines)[1..] == lines;
  }

  /** A line whose Product is not "Actions" changes nothing, wherever it stands among the data lines. */
  lemma AnalyzeSkipsOtherProducts(header: Line, a: seq<Line>, x: Line, b: seq<Line>)
    requires HasAllLabels(header) ==> !IsActions(header, x)
    ensures AnalyzeCsv(header, a + [x] + b) == AnalyzeCsv(header, a + b)
  {
    MissingLabelsEmpty(header);
    if HasAllLabels(header) {
      KeptRowsSkip(header, a, x, b);
      assert AnalyzeCsv(header, a + [x] + b) == AnalyzeRows(KeptRows(header, a + [x] + b));
      assert AnalyzeCsv(header, a + b) == AnalyzeRows(KeptRows(header, a + b));
    }
  }

  /** A kept row in another unit than minutes ends the analysis with the error of the first such row. */
  lemma AnalyzeOtherUnit(header: Line, lines: seq<Line>, rows: seq<UsageRow>)
    requires HasAllLabels(header) && rows == KeptRows(header, lines)
    requires !AllMinutes(rows)
    ensures AnalyzeCsv(header, lines) == Fatal(UnitTypeError(rows[FirstOther(rows)].unitType))
  {
    MissingLabelsEmpty(header);
    AggregateErr(rows);
  }

  /** Otherwise the analysis gives the four expected tables, finalised to the desired decimals. */
  lemma AnalyzeSucceeds(header: Line, lines: seq<Line>, rows: seq<UsageRow>)
    requires HasAllLabels(header) && rows == KeptRows(header, lines)
    requires AllMinutes(rows)
    ensures AnalyzeCsv(header, lines) == Analyzed(FinalizeAll(ExpectedTables(rows), DesiredPlaces(rows)))
  {
    MissingLabelsEmpty(header);
  }

  /** The upload reaches the CSV analysis exactly when it is a CSV file that can be opened and has a first line. */
  lemma AnalyzeReachesCsv(u: Upload, header: Line, lines: seq<Line>)
    requires u.declaredType == Some("text/csv") && u.contents == Some([header] + lines)
    ensures Analyze(Some(u)) == AnalyzeCsv(header, lines)
  {
    assert ([header] + lines)[1..] == lines;
  }

  /**
   * One finalised bucket: its Minutes are its rows' amounts, its cost
   * string has exactly the desired decimals and reads back as the exact sum
   * of its rows' costs, and its Repositories are its rows' distinct
   * repositories, absent from the per-repository table.
   */
  lemma FinalizeEntryFacts(d: Dimension, name: string, rows: seq<UsageRow>, i: nat, desired: nat)
    requires i < |Expected(d, rows)|
    requires forall r :: r in rows ==> r.unitPrice.places <= desired
    ensures var e := Expected(d, rows)[i];
      var f := FinalizeEntry(name, e, desired);
      && f.key == e.key && f.row.group == e.key
      && f.row.minutes == Minutes(Matching(d, rows, e.key))
      && DecimalPlaces(f.row.cost) == desired
      && Value(ParseDecimal(f.row.cost)) == CostValue(Matching(d, rows, e.key))
      && f.row.repositories == (if name == "Per Repository" then None
                                else Some(Join(", ", Dedup(Repositories(Matching(d, rows, e.key))))))
  {
    var e := Expected(d, rows)[i];
    var rs := Matching(d, rows, e.key);
    assert e.bucket == BucketOf(e.key, rs);
    MatchingIn(d, rows, e.key);
    BucketOfPlaces(e.key, rs, desired);
    FinalizeEntryDisplay(name, e, desired);
    BucketCostValue(e.key, rs);
  }

  /**
   * In the tables per day, per user and per workflow, the bucket of every
   * row's key lists that row's repository in its Repositories string.
   */
  lemma FinalizeListsRepository(rows: seq<UsageRow>, n: nat, j: nat, desired: nat)
    requires n < 3 && j < |rows|
    ensures exists i :: (0 <= i < |Expected(Dimensions[n], rows)|
      && Expected(Dimensions[n], rows)[i].key == Dimensions[n].KeyOf(rows[j])
      && ListsRepository(FinalizeEntry(Names[n], Expected(Dimensions[n], rows)[i], desired), rows[j].repository))
  {
    var d := Dimensions[n];
    var k := d.KeyOf(rows[j]);
    var ks := Dedup(RowKeys(d, rows));
    assert RowKeys(d, rows)[j] == k;
    var i := FirstIndex(ks, k);
    var e := Expected(d, rows)[i];
    assert e == Entry(k, BucketOf(k, Matching(d, rows, k)));
    MatchingListsRepository(d, rows, j);
    EntryListsRepository(Names[n], e, desired, rows[j].repository);
  }

  /** The displayed Repositories string of a bucket holds `repository`. */
  predicate ListsRepository(f: FinalEntry, repository: string)
  {
    f.row.repositories.Some? && Contains(f.row.repositories.value, repository)
  }

  /** Outside the per-repository table, a bucket's display lists each of its repositories. */
  lemma EntryListsRepository(name: string, e: Entry, desired: nat, repository: string)
    requires name != "Per Repository" && repository in e.bucket.repositories
    ensures ListsRepository(FinalizeEntry(name, e, desired), repository)
  {
    JoinContains(", ", Dedup(e.bucket.repositories), repository);
  }

  /** Where each bucket of the expected tables lands in the finalised report. */
  lemma ReportAt(rows: seq<UsageRow>, n: nat, i: nat)
    requires n < 4 && i < |Expected(Dimensions[n], rows)|
    ensures i < |FinalizeAll(ExpectedTables(rows), DesiredPlaces(rows))[n].table|
    ensures FinalizeAll(ExpectedTables(rows), DesiredPlaces(rows))[n].table[i]
         == FinalizeEntry(Names[n], Expected(Dimensions[n], rows)[i], DesiredPlaces(rows))
  {
    FinalizeAllAt(ExpectedTables(rows), DesiredPlaces(rows), n);
    FinalizeTableAt(Names[n], Expected(Dimensions[n], rows), DesiredPlaces(rows), i);
  }

  /**
   * Every finalised bucket of the report, with prices as the row parser
   * reads them: its cost string has exactly the desired decimals and reads
   * back as the exact cost of its rows, as FinalizeEntryFacts states.
   */
  lemma ReportEntry(d: Dimension, name: string, rows: seq<UsageRow>, i: nat)
    requires forall r :: r in rows ==> IsCanonical(r.unitPrice)
    requires i < |Expected(d, rows)|
    ensures var e := Expected(d, rows)[i];
      var f := FinalizeEntry(name, e, DesiredPlaces(rows));
      && f.row.minutes == Minutes(Matching(d, rows, e.key))
      && DecimalPlaces(f.row.cost) == DesiredPlaces(rows)
      && Value(ParseDecimal(f.row.cost)) == CostValue(Matching(d, rows, e.key))
  {
    DesiredPlacesBound(rows);
    FinalizeEntryFacts(d, name, rows, i, DesiredPlaces(rows));
  }

  /** Each table's Minutes add up to the minutes of all the kept rows. */
  lemma ReportMinutes(rows: seq<UsageRow>, n: nat)
    requires AllMinutes(rows) && n < 4
    ensures TotalMinutes(ExpectedTables(rows)[n].table) == Minutes(rows)
  {
    ReduceByAllMinutes(Dimensions[n], rows);
    ReduceByTotalMinutes(Dimensions[n], rows);
  }
}
