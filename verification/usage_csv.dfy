/**
 * The row parser: the check of the CSV header against the analyzer's field
 * mapping, and the mapping of every line that describes GitHub Actions usage
 * to a UsageRow.
 */
module UsageCsv {
  import opened Decimal
  import opened Lists

  /** One CSV line, as `fgetcsv` splits it into cells. */
  type Line = seq<string>

  /**
   * The header labels of the field mapping, in its order. UsageRow has one
   * field per label, in the same order: date, product, product_type, amount,
   * unit_type, unit_price_dollar, unit_price_multiplier, owner, repository,
   * username, workflow.
   */
  const Labels: seq<string> := [
    "Date", "Product", "SKU", "Quantity", "Unit Type", "Price Per Unit ($)",
    "Multiplier", "Owner", "Repository Slug", "Username", "Actions Workflow"
  ]

  /** One usage line after mapping; `amount` and the two prices are the cast cells. */
  datatype UsageRow = UsageRow(
    date: string,
    product: string,
    productType: string,
    amount: nat,
    unitType: string,
    unitPrice: Fixed,
    multiplier: Fixed,
    owner: string,
    repository: string,
    username: string,
    workflow: string)

  lemma LabelsDistinct()
    ensures NoDuplicates(Labels)
  {
  }

  /**
   * `array_diff(labels, header)`: the labels that no header cell holds, in
   * the order of `labels`.
   */
  function Missing(labels: seq<string>, header: Line): (r: seq<string>)
    requires NoDuplicates(labels)
    ensures forall x :: x in r <==> x in labels && x !in header
    ensures NoDuplicates(r)
    ensures forall i, j :: 0 <= i < j < |r| ==> FirstIndex(labels, r[i]) < FirstIndex(labels, r[j])
  {
    if labels == [] then []
    else
      var init, last := labels[..|labels| - 1], labels[|labels| - 1];
      assert labels == init + [last];
      var m := Missing(init, header);
      forall x | x in init
        ensures FirstIndex(labels, x) == FirstIndex(init, x)
      {
        FirstIndexAppend(init, [last], x);
      }
      if last in header then m
      else
        FirstIndexUnique(labels, last, |labels| - 1);
        m + [last]
  }

  /** The labels of the field mapping that the header lacks. */
  function MissingLabels(header: Line): seq<string>
  {
    LabelsDistinct();
    Missing(Labels, header)
  }

  const MalformedHeader := "Malformed CSV file, missing header fields: "

  /**
   * What the analyzer prints when header labels are missing: the fixed
   * text, then the missing labels joined by ", ", so exactly the fixed text
   * and the label when one is missing. MissingMessageAt places every label.
   */
  function MissingMessage(missing: seq<string>): (r: string)
    ensures |MalformedHeader| <= |r| && r[..|MalformedHeader|] == MalformedHeader
    ensures |missing| == 1 ==> r == MalformedHeader + missing[0]
    ensures missing != [] ==> |r| == |MalformedHeader| + TotalLength(missing) + (|missing| - 1) * 2
    ensures missing != [] ==>
      |MalformedHeader| + |missing[0]| <= |r| && r[|MalformedHeader|..|MalformedHeader| + |missing[0]|] == missing[0]
    ensures missing != [] ==> |missing[|missing| - 1]| <= |r| && r[|r| - |missing[|missing| - 1]|..] == missing[|missing| - 1]
  {
    var j := Join(", ", missing);
    assert (MalformedHeader + j)[|MalformedHeader|..] == j;
    MalformedHeader + j
  }

  /**
   * The `i`-th missing label sits after the fixed text and the earlier
   * labels, each followed by ", ", and is followed by ", " itself unless it
   * is the last.
   */
  lemma MissingMessageAt(missing: seq<string>, i: nat)
    requires i < |missing|
    ensures |MalformedHeader| + Offset(", ", missing, i) + |missing[i]| <= |MissingMessage(missing)|
    ensures MissingMessage(missing)[|MalformedHeader| + Offset(", ", missing, i)..
                                    |MalformedHeader| + Offset(", ", missing, i) + |missing[i]|] == missing[i]
    ensures i + 1 < |missing| ==>
      |MalformedHeader| + Offset(", ", missing, i) + |missing[i]| + 2 <= |MissingMessage(missing)| &&
      MissingMessage(missing)[|MalformedHeader| + Offset(", ", missing, i) + |missing[i]|..
                              |MalformedHeader| + Offset(", ", missing, i) + |missing[i]| + 2] == ", "
  {
    JoinElementAfter(MalformedHeader, ", ", missing, i);
    if i + 1 < |missing| {
      JoinSeparatorAfter(MalformedHeader, ", ", missing, i);
    }
  }

  /** Every label of the field mapping is in the header. */
  predicate HasAllLabels(header: Line)
  {
    forall l :: l in Labels ==> l in header
  }

  /** No label is reported missing exactly when the header has them all. */
  lemma MissingLabelsEmpty(header: Line)
    ensures MissingLabels(header) == [] <==> HasAllLabels(header)
  {
    var m := MissingLabels(header);
    assert m != [] ==> m[0] in Labels && m[0] !in header;
    assert (exists l :: l in Labels && l !in header) ==> exists l :: l in m;
  }

  /** A cell of a line; a line shorter than the header reads as empty there. */
  function Cell(line: Line, i: nat): string
  {
    if i < |line| then line[i] else ""
  }

  /** The cell under the header label `name`: the column `array_flip` gave it, which is its last one in the header. */
  function Field(header: Line, line: Line, name: string): (r: string)
    requires name in header
    ensures r == "" || r in line
    ensures |line| == |header| ==>
      exists j :: 0 <= j < |header| && header[j] == name && name !in header[j + 1..] && r == line[j]
  {
    Cell(line, LastIndex(header, name))
  }

  /** The filter: the line's Product cell is exactly "Actions". */
  predicate IsActions(header: Line, line: Line)
    requires HasAllLabels(header)
  {
    Field(header, line, "Product") == "Actions"
  }

  /** The cell under the `i`-th label of the field mapping. */
  function Column(header: Line, line: Line, i: nat): string
    requires HasAllLabels(header) && i < |Labels|
  {
    Field(header, line, Labels[i])
  }

  /**
   * The field mapping of one line, label by label in the mapping's order,
   * with Quantity cast to int and the two prices to numbers.
   */
  function MapRow(header: Line, line: Line): (r: UsageRow)
    requires HasAllLabels(header)
    ensures r.product == Field(header, line, "Product")
    ensures IsCanonical(r.unitPrice) && IsCanonical(r.multiplier)
  {
    assert Labels[1] == "Product";
    UsageRow(
      Column(header, line, 0),
      Column(header, line, 1),
      Column(header, line, 2),
      ParseNat(Column(header, line, 3)),
      Column(header, line, 4),
      Canonical(ParseDecimal(Column(header, line, 5))),
      Canonical(ParseDecimal(Column(header, line, 6))),
      Column(header, line, 7),
      Column(header, line, 8),
      Column(header, line, 9),
      Column(header, line, 10))
  }

  /**
   * The fields a table groups by come from the cells under their own labels:
   * Date, Username, Actions Workflow and Repository Slug.
   */
  lemma MapRowKeys(header: Line, line: Line)
    requires HasAllLabels(header)
    ensures var r := MapRow(header, line);
      && r.date == Field(header, line, "Date")
      && r.repository == Field(header, line, "Repository Slug")
      && r.username == Field(header, line, "Username")
      && r.workflow == Field(header, line, "Actions Workflow")
  {
    assert Labels[0] == "Date" && Labels[8] == "Repository Slug" && Labels[9] == "Username" && Labels[10] == "Actions Workflow";
  }

  /**
   * The other fields of a mapped row come from the cells under their own
   * labels: SKU, Unit Type and Owner as they are, Quantity through the
   * `(int)` cast and the two prices through the `(float)` cast.
   */
  lemma MapRowFields(header: Line, line: Line)
    requires HasAllLabels(header)
    ensures var r := MapRow(header, line);
      && r.productType == Field(header, line, "SKU")
      && r.amount == ParseNat(Field(header, line, "Quantity"))
      && r.unitType == Field(header, line, "Unit Type")
      && r.unitPrice == Canonical(ParseDecimal(Field(header, line, "Price Per Unit ($)")))
      && r.multiplier == Canonical(ParseDecimal(Field(header, line, "Multiplier")))
      && r.owner == Field(header, line, "Owner")
  {
    assert Labels[2] == "SKU" && Labels[3] == "Quantity" && Labels[4] == "Unit Type";
    assert Labels[5] == "Price Per Unit ($)" && Labels[6] == "Multiplier" && Labels[7] == "Owner";
  }

  /** The prices of a mapped row have the values the `(float)` casts read. */
  lemma MapRowPrices(header: Line, line: Line)
    requires HasAllLabels(header)
    ensures Value(MapRow(header, line).unitPrice) == Value(ParseDecimal(Column(header, line, 5)))
    ensures Value(MapRow(header, line).multiplier) == Value(ParseDecimal(Column(header, line, 6)))
  {
    CanonicalValue(ParseDecimal(Column(header, line, 5)));
    CanonicalValue(ParseDecimal(Column(header, line, 6)));
  }

  /** The rows the ingestion loop collects from the data lines. */
  function KeptRows(header: Line, lines: seq<Line>): (rows: seq<UsageRow>)
    requires HasAllLabels(header)
    ensures |rows| <= |lines|
    ensures forall i :: 0 <= i < |rows| ==> rows[i].product == "Actions"
  {
    if lines == [] then []
    else
      var init, last := lines[..|lines| - 1], lines[|lines| - 1];
      KeptRows(header, init) + (if IsActions(header, last) then [MapRow(header, last)] else [])
  }

  /** The `while (fgetcsv(...))` loop: skip non-Actions lines, map and append the others. */
  method ReadRows(header: Line, lines: seq<Line>) returns (rows: seq<UsageRow>)
    requires HasAllLabels(header)
    ensures rows == KeptRows(header, lines)
  {
    rows := [];
    var i := 0;
    while i < |lines|
      invariant 0 <= i <= |lines|
      invariant rows == KeptRows(header, lines[..i])
    {
      var data := lines[i];
      assert lines[..i + 1] == lines[..i] + [data];
      if Field(header, data, "Product") == "Actions" {
        rows := rows + [MapRow(header, data)];
      }
      i := i + 1;
    }
    assert lines[..i] == lines;
  }

  /** Every kept row's price is canonical: a cast number keeps its value, not its trailing zeros. */
  lemma {:induction false} KeptRowsCanonical(header: Line, lines: seq<Line>)
    requires HasAllLabels(header)
    ensures forall r :: r in KeptRows(header, lines) ==> IsCanonical(r.unitPrice)
  {
    if lines != [] {
      KeptRowsCanonical(header, lines[..|lines| - 1]);
    }
  }

  lemma {:induction false} KeptRowsAppend(header: Line, a: seq<Line>, b: seq<Line>)
    requires HasAllLabels(header)
    ensures KeptRows(header, a + b) == KeptRows(header, a) + KeptRows(header, b)
  {
    if b == [] {
      assert a + b == a;
    } else {
      var b' := b[..|b| - 1];
      assert (a + b)[..|a + b| - 1] == a + b' && (a + b)[|a + b| - 1] == b[|b| - 1];
      KeptRowsAppend(header, a, b');
    }
  }

  /** A line whose Product is not "Actions" is skipped without a trace, wherever it stands. */
  lemma KeptRowsSkip(header: Line, a: seq<Line>, x: Line, b: seq<Line>)
    requires HasAllLabels(header)
    requires !IsActions(header, x)
    ensures KeptRows(header, a + [x] + b) == KeptRows(header, a + b)
  {
    KeptRowsAppend(header, a + [x], b);
    KeptRowsAppend(header, a, [x]);
    KeptRowsAppend(header, a, b);
    assert [x][..0] == [];
  }

  /** An Actions line gives exactly its mapped row, at its place. */
  lemma KeptRowsKeep(header: Line, a: seq<Line>, x: Line, b: seq<Line>)
    requires HasAllLabels(header)
    requires IsActions(header, x)
    ensures KeptRows(header, a + [x] + b) == KeptRows(header, a) + [MapRow(header, x)] + KeptRows(header, b)
  {
    KeptRowsAppend(header, a + [x], b);
    KeptRowsAppend(header, a, [x]);
    assert [x][..0] == [];
  }
}
