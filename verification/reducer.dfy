/**
 * `reduce_by_column`: the group-and-sum reducer that is folded once per
 * grouping dimension over the kept rows, and what that fold computes.
 */
module Reducer {
  import opened Wrappers
  import opened Decimal
  import opened Lists
  import opened UsageCsv

  /** The column a table groups by. */
  datatype Dimension = ByDate | ByUsername | ByWorkflow | ByRepository
  {
    /** `$row[$column]`. */
    function KeyOf(row: UsageRow): string
    {
      match this
      case ByDate => row.date
      case ByUsername => row.username
      case ByWorkflow => row.workflow
      case ByRepository => row.repository
    }
  }

  /** One group: its key, Minutes, Cost ($) and Repositories. */
  datatype Bucket = Bucket(group: string, minutes: nat, cost: Fixed, repositories: seq<string>)

  /** A table is an ordered map from key to bucket: entries in insertion order. */
  datatype Entry = Entry(key: string, bucket: Bucket)

  type Table = seq<Entry>

  function Keys(t: Table): seq<string>
  {
    seq(|t|, i requires 0 <= i < |t| => t[i].key)
  }

  /** The bucket `reduce_by_column` creates on a key's first row: labelled with the key, and empty. */
  function Fresh(key: string): (b: Bucket)
    ensures b.group == key && b.minutes == 0 && b.repositories == []
    ensures Value(b.cost) == 0.0
  {
    assert Pow10(0) == 1;
    Bucket(key, 0, Zero, [])
  }

  /**
   * What one row adds to its bucket: its amount to the Minutes, exactly
   * amount times price to the cost, its repository at the end of the list.
   */
  function Credit(b: Bucket, row: UsageRow): (r: Bucket)
    ensures r.group == b.group && r.minutes == b.minutes + row.amount
    ensures r.repositories == b.repositories + [row.repository]
    ensures Value(r.cost) == Value(b.cost) + RowCost(row)
  {
    AddValue(b.cost, Scale(row.amount, row.unitPrice));
    ScaleValue(row.amount, row.unitPrice);
    Bucket(b.group, b.minutes + row.amount, Add(b.cost, Scale(row.amount, row.unitPrice)),
           b.repositories + [row.repository])
  }

  /** The message of the RuntimeException thrown for a unit type other than "minute". */
  function UnitTypeError(unitType: string): string
  {
    "Unexpected unit type '" + unitType + "'"
  }

  /**
   * What the reducer closure does to the carry for a row in minutes: exactly
   * the bucket of the row's key changes, and it is appended first when the
   * key is new.
   */
  function Insert(d: Dimension, t: Table, row: UsageRow): (r: Table)
    ensures var k := d.KeyOf(row);
      && Keys(r) == (if k in Keys(t) then Keys(t) else Keys(t) + [k])
      && (forall i :: 0 <= i < |t| && t[i].key != k ==> r[i] == t[i])
      && (k in Keys(t) ==> r[FirstIndex(Keys(t), k)].bucket == Credit(t[FirstIndex(Keys(t), k)].bucket, row))
      && (k !in Keys(t) ==> r[|t|].bucket == Credit(Fresh(k), row))
  {
    var k := d.KeyOf(row);
    var t' := if k in Keys(t) then t else t + [Entry(k, Fresh(k))];
    assert Keys(t') == if k in Keys(t) then Keys(t) else Keys(t) + [k];
    var i := FirstIndex(Keys(t'), k);
    assert k !in Keys(t) ==> i == |t| by {
      if k !in Keys(t) { FirstIndexUnique(Keys(t'), k, |t|); }
    }
    var r := t'[i := Entry(k, Credit(t'[i].bucket, row))];
    assert Keys(r) == Keys(t');
    r
  }

  /** The reducer closure: a row whose unit type is not "minute" throws; any other row is inserted. */
  function Step(d: Dimension, t: Table, row: UsageRow): (r: Result<Table>)
    ensures r.Err? <==> row.unitType != "minute"
    ensures r.Err? ==> r.message == UnitTypeError(row.unitType)
  {
    if row.unitType != "minute" then Err(UnitTypeError(row.unitType)) else Ok(Insert(d, t, row))
  }

  /** `array_reduce($rows, reduce_by_column(...), [])`: the rows folded in order. */
  function ReduceBy(d: Dimension, rows: seq<UsageRow>): (r: Result<Table>)
    ensures r.Ok? ==> |r.value| <= |rows| && NoDuplicates(Keys(r.value))
    ensures r.Err? ==> exists i :: 0 <= i < |rows| && rows[i].unitType != "minute" && r.message == UnitTypeError(rows[i].unitType)
  {
    if rows == [] then Ok([])
    else
      var init, last := rows[..|rows| - 1], rows[|rows| - 1];
      match ReduceBy(d, init)
      case Err(m) =>
        assert exists i :: 0 <= i < |init| && init[i].unitType != "minute" && m == UnitTypeError(init[i].unitType);
        Err(m)
      case Ok(t) =>
        var k := d.KeyOf(last);
        assert k !in Keys(t) ==> NoDuplicates(Keys(t) + [k]);
        Step(d, t, last)
  }

  // ---------------------------------------------------------------------
  // What the fold computes, stated without the fold.

  predicate AllMinutes(rows: seq<UsageRow>)
  {
    forall i :: 0 <= i < |rows| ==> rows[i].unitType == "minute"
  }

  /** The key of every row, in row order. */
  function RowKeys(d: Dimension, rows: seq<UsageRow>): (ks: seq<string>)
    ensures |ks| == |rows|
    ensures forall i :: 0 <= i < |rows| ==> ks[i] == d.KeyOf(rows[i])
  {
    if rows == [] then [] else RowKeys(d, rows[..|rows| - 1]) + [d.KeyOf(rows[|rows| - 1])]
  }

  /** The rows whose key is `k`, in row order. */
  function Matching(d: Dimension, rows: seq<UsageRow>, k: string): seq<UsageRow>
  {
    if rows == [] then []
    else Matching(d, rows[..|rows| - 1], k) + (if d.KeyOf(rows[|rows| - 1]) == k then [rows[|rows| - 1]] else [])
  }

  function Minutes(rows: seq<UsageRow>): nat
  {
    if rows == [] then 0 else Minutes(rows[..|rows| - 1]) + rows[|rows| - 1].amount
  }

  /** What one row costs: its amount times its unit price, as an exact real. */
  function RowCost(row: UsageRow): real
  {
    row.amount as real * Value(row.unitPrice)
  }

  /** The sum of the rows' costs. */
  function CostValue(rows: seq<UsageRow>): real
  {
    if rows == [] then 0.0 else CostValue(rows[..|rows| - 1]) + RowCost(rows[|rows| - 1])
  }

  function Repositories(rows: seq<UsageRow>): seq<string>
  {
    if rows == [] then [] else Repositories(rows[..|rows| - 1]) + [rows[|rows| - 1].repository]
  }

  /**
   * The bucket for key `k` after the rows `rs` of that key: its label is the
   * key, its Minutes the sum of their amounts, its cost the exact sum of
   * amount times price, its repositories theirs in row order.
   */
  function BucketOf(k: string, rs: seq<UsageRow>): (b: Bucket)
    ensures b.group == k
    ensures b.minutes == Minutes(rs)
    ensures b.repositories == Repositories(rs)
  {
    if rs == [] then Fresh(k) else Credit(BucketOf(k, rs[..|rs| - 1]), rs[|rs| - 1])
  }

  /** A bucket's cost is exactly the sum of its rows' amount times unit price. */
  lemma {:induction false} BucketCostValue(k: string, rs: seq<UsageRow>)
    ensures Value(BucketOf(k, rs).cost) == CostValue(rs)
  {
    if rs != [] {
      BucketCostValue(k, rs[..|rs| - 1]);
    }
  }

  /** Every row a bucket collects is one of the rows, of that bucket's key. */
  lemma {:induction false} MatchingIn(d: Dimension, rows: seq<UsageRow>, k: string)
    ensures forall r :: r in Matching(d, rows, k) ==> r in rows && d.KeyOf(r) == k
  {
    if rows != [] {
      var init := rows[..|rows| - 1];
      MatchingIn(d, init, k);
      assert forall r :: r in init ==> r in rows;
    }
  }

  /** A bucket's cost has no more decimals than the most precise price among its rows. */
  lemma {:induction false} BucketOfPlaces(k: string, rs: seq<UsageRow>, p: nat)
    requires forall r :: r in rs ==> r.unitPrice.places <= p
    ensures BucketOf(k, rs).cost.places <= p
  {
    if rs != [] {
      var init := rs[..|rs| - 1];
      assert forall r :: r in init ==> r in rs;
      BucketOfPlaces(k, init, p);
      assert rs[|rs| - 1] in rs;
    }
  }

  /** The table the fold should give: one entry per distinct key, in first-occurrence order. */
  function Expected(d: Dimension, rows: seq<UsageRow>): Table
  {
    var ks := Dedup(RowKeys(d, rows));
    seq(|ks|, i requires 0 <= i < |ks| => Entry(ks[i], BucketOf(ks[i], Matching(d, rows, ks[i]))))
  }

  // ---------------------------------------------------------------------
  // Lemmas.

  lemma RepositoriesSnoc(rs: seq<UsageRow>, r: UsageRow)
    ensures Repositories(rs + [r]) == Repositories(rs) + [r.repository]
  {
    assert (rs + [r])[..|rs|] == rs;
  }

  /** The rows of a row's own key include that row, so their repositories include its repository. */
  lemma {:induction false} MatchingListsRepository(d: Dimension, rows: seq<UsageRow>, j: nat)
    requires j < |rows|
    ensures rows[j].repository in Repositories(Matching(d, rows, d.KeyOf(rows[j])))
  {
    var init, last := rows[..|rows| - 1], rows[|rows| - 1];
    var k := d.KeyOf(rows[j]);
    var m := Matching(d, init, k);
    assert Matching(d, rows, k) == m + (if d.KeyOf(last) == k then [last] else []);
    if j == |rows| - 1 {
      RepositoriesSnoc(m, last);
    } else {
      assert init[j] == rows[j];
      MatchingListsRepository(d, init, j);
      if d.KeyOf(last) == k {
        RepositoriesSnoc(m, last);
      } else {
        assert Matching(d, rows, k) == m;
      }
    }
  }

  lemma {:induction false} MatchingAbsent(d: Dimension, rows: seq<UsageRow>, k: string)
    requires k !in RowKeys(d, rows)
    ensures Matching(d, rows, k) == []
  {
    if rows != [] {
      assert RowKeys(d, rows) == RowKeys(d, rows[..|rows| - 1]) + [d.KeyOf(rows[|rows| - 1])];
      MatchingAbsent(d, rows[..|rows| - 1], k);
    }
  }

  lemma BucketOfSnoc(k: string, rs: seq<UsageRow>, r: UsageRow)
    ensures BucketOf(k, rs + [r]) == Credit(BucketOf(k, rs), r)
  {
    assert (rs + [r])[..|rs|] == rs;
  }

  lemma RowKeysSnoc(d: Dimension, rows: seq<UsageRow>, r: UsageRow)
    ensures RowKeys(d, rows + [r]) == RowKeys(d, rows) + [d.KeyOf(r)]
  {
    assert (rows + [r])[..|rows|] == rows;
  }

  lemma MatchingSnoc(d: Dimension, rows: seq<UsageRow>, r: UsageRow, k: string)
    ensures Matching(d, rows + [r], k) == Matching(d, rows, k) + (if d.KeyOf(r) == k then [r] else [])
  {
    assert (rows + [r])[..|rows|] == rows;
  }

  lemma DedupSnoc(xs: seq<string>, x: string)
    ensures Dedup(xs + [x]) == if x in Dedup(xs) then Dedup(xs) else Dedup(xs) + [x]
  {
    assert (xs + [x])[..|xs|] == xs;
  }

  lemma KeysOfExpected(d: Dimension, rows: seq<UsageRow>)
    ensures Keys(Expected(d, rows)) == Dedup(RowKeys(d, rows))
  {
  }

  /** A row leaves the expected entries of the other keys as they were. */
  lemma ExpectedOtherKey(d: Dimension, rows: seq<UsageRow>, r: UsageRow, i: nat)
    requires i < |Expected(d, rows)| && Expected(d, rows)[i].key != d.KeyOf(r)
    ensures i < |Expected(d, rows + [r])| && Expected(d, rows + [r])[i] == Expected(d, rows)[i]
  {
    var ks := Dedup(RowKeys(d, rows));
    var x := ks[i];
    assert Expected(d, rows)[i] == Entry(x, BucketOf(x, Matching(d, rows, x)));
    assert x != d.KeyOf(r);
    RowKeysSnoc(d, rows, r);
    DedupSnoc(RowKeys(d, rows), d.KeyOf(r));
    var ks' := Dedup(RowKeys(d, rows + [r]));
    assert i < |ks'| && ks'[i] == x;
    MatchingSnoc(d, rows, r, x);
    assert Matching(d, rows + [r], x) == Matching(d, rows, x);
    assert Expected(d, rows + [r])[i] == Entry(x, BucketOf(x, Matching(d, rows + [r], x)));
  }

  /** Inserting a row with a new key appends its entry. */
  lemma InsertNew(d: Dimension, t: Table, row: UsageRow)
    requires d.KeyOf(row) !in Keys(t)
    ensures Insert(d, t, row) == t + [Entry(d.KeyOf(row), Credit(Fresh(d.KeyOf(row)), row))]
  {
    var k := d.KeyOf(row);
    var t' := t + [Entry(k, Fresh(k))];
    assert Keys(t') == Keys(t) + [k];
    FirstIndexUnique(Keys(t'), k, |t|);
  }

  /** Inserting a row with a known key replaces that key's entry. */
  lemma InsertOld(d: Dimension, t: Table, row: UsageRow)
    requires d.KeyOf(row) in Keys(t)
    ensures var i := FirstIndex(Keys(t), d.KeyOf(row));
      Insert(d, t, row) == t[i := Entry(d.KeyOf(row), Credit(t[i].bucket, row))]
  {
  }

  /** A row with a known key credits that key's entry of the expected table, in place. */
  lemma ExpectedUpdate(d: Dimension, rows: seq<UsageRow>, r: UsageRow)
    requires d.KeyOf(r) in Dedup(RowKeys(d, rows))
    ensures var k, e := d.KeyOf(r), Expected(d, rows);
      var i := FirstIndex(Dedup(RowKeys(d, rows)), k);
      i < |e| && Expected(d, rows + [r]) == e[i := Entry(k, Credit(e[i].bucket, r))]
  {
    var k := d.KeyOf(r);
    var e, e' := Expected(d, rows), Expected(d, rows + [r]);
    var ks := Dedup(RowKeys(d, rows));
    KeysOfExpected(d, rows);
    var i0 := FirstIndex(ks, k);
    var b := BucketOf(k, Matching(d, rows, k));
    assert e[i0] == Entry(k, b);
    var t := e[i0 := Entry(k, Credit(b, r))];
    ExpectedOldEntry(d, rows, r);
    forall i | 0 <= i < |t|
      ensures t[i] == e'[i]
    {
      if i != i0 {
        assert ks[i] != k;
        ExpectedOtherKey(d, rows, r, i);
      }
    }
  }

  /** A row whose key is already in the table updates that key's entry, in place. */
  lemma ExpectedSnocOld(d: Dimension, rows: seq<UsageRow>, r: UsageRow)
    requires d.KeyOf(r) in Dedup(RowKeys(d, rows))
    ensures Insert(d, Expected(d, rows), r) == Expected(d, rows + [r])
  {
    KeysOfExpected(d, rows);
    InsertOld(d, Expected(d, rows), r);
    ExpectedUpdate(d, rows, r);
  }

  /** A row with a known key leaves the expected table as long, and credits that key's entry. */
  lemma ExpectedOldEntry(d: Dimension, rows: seq<UsageRow>, r: UsageRow)
    requires d.KeyOf(r) in Dedup(RowKeys(d, rows))
    ensures var k, ks := d.KeyOf(r), Dedup(RowKeys(d, rows));
      && |Expected(d, rows + [r])| == |Expected(d, rows)|
      && Expected(d, rows + [r])[FirstIndex(ks, k)]
           == Entry(k, Credit(BucketOf(k, Matching(d, rows, k)), r))
  {
    var k := d.KeyOf(r);
    RowKeysSnoc(d, rows, r);
    DedupSnoc(RowKeys(d, rows), k);
    KeysOfExpected(d, rows);
    KeysOfExpected(d, rows + [r]);
    MatchingSnoc(d, rows, r, k);
    BucketOfSnoc(k, Matching(d, rows, k), r);
  }

  /** A row with a new key gives the expected table one more entry, at the end, for that row alone. */
  lemma ExpectedNewEntry(d: Dimension, rows: seq<UsageRow>, r: UsageRow)
    requires d.KeyOf(r) !in Dedup(RowKeys(d, rows))
    ensures |Expected(d, rows + [r])| == |Expected(d, rows)| + 1
    ensures Expected(d, rows + [r])[|Expected(d, rows)|] == Entry(d.KeyOf(r), Credit(Fresh(d.KeyOf(r)), r))
  {
    var k := d.KeyOf(r);
    RowKeysSnoc(d, rows, r);
    DedupSnoc(RowKeys(d, rows), k);
    KeysOfExpected(d, rows);
    KeysOfExpected(d, rows + [r]);
    MatchingAbsent(d, rows, k);
    MatchingSnoc(d, rows, r, k);
    assert Matching(d, rows + [r], k) == [] + [r];
    BucketOfSnoc(k, [], r);
  }

  /** A row with a new key leaves every earlier entry of the expected table as it was. */
  lemma ExpectedKeepsPrefix(d: Dimension, rows: seq<UsageRow>, r: UsageRow)
    requires d.KeyOf(r) !in Dedup(RowKeys(d, rows))
    requires |Expected(d, rows + [r])| == |Expected(d, rows)| + 1
    ensures Expected(d, rows + [r])[..|Expected(d, rows)|] == Expected(d, rows)
  {
    var e, e' := Expected(d, rows), Expected(d, rows + [r]);
    KeysOfExpected(d, rows);
    forall i | 0 <= i < |e|
      ensures e'[i] == e[i]
    {
      assert Keys(e)[i] == e[i].key;
      ExpectedOtherKey(d, rows, r, i);
    }
  }

  /** A row with a new key appends that key's entry to the expected table. */
  lemma ExpectedAppend(d: Dimension, rows: seq<UsageRow>, r: UsageRow)
    requires d.KeyOf(r) !in Dedup(RowKeys(d, rows))
    ensures Expected(d, rows + [r]) == Expected(d, rows) + [Entry(d.KeyOf(r), Credit(Fresh(d.KeyOf(r)), r))]
  {
    var e, e' := Expected(d, rows), Expected(d, rows + [r]);
    ExpectedNewEntry(d, rows, r);
    ExpectedKeepsPrefix(d, rows, r);
    assert e' == e'[..|e|] + [e'[|e|]];
  }

  /** A row with a new key appends that key's entry. */
  lemma ExpectedSnocNew(d: Dimension, rows: seq<UsageRow>, r: UsageRow)
    requires d.KeyOf(r) !in Dedup(RowKeys(d, rows))
    ensures Insert(d, Expected(d, rows), r) == Expected(d, rows + [r])
  {
    KeysOfExpected(d, rows);
    InsertNew(d, Expected(d, rows), r);
    ExpectedAppend(d, rows, r);
  }

  /** When every row is in minutes, the fold builds the expected table. */
  lemma {:induction false} ReduceByAllMinutes(d: Dimension, rows: seq<UsageRow>)
    requires AllMinutes(rows)
    ensures ReduceBy(d, rows) == Ok(Expected(d, rows))
  {
    if rows == [] {
      assert RowKeys(d, rows) == [];
      assert Expected(d, rows) == [];
    } else {
      var init, last := rows[..|rows| - 1], rows[|rows| - 1];
      assert init + [last] == rows;
      ReduceByAllMinutes(d, init);
      assert ReduceBy(d, rows) == Ok(Insert(d, Expected(d, init), last));
      if d.KeyOf(last) in Dedup(RowKeys(d, init)) {
        ExpectedSnocOld(d, init, last);
      } else {
        ExpectedSnocNew(d, init, last);
      }
    }
  }

  /**
   * The first row whose unit type is not "minute" makes the fold throw with
   * its unit type, however many valid rows came before it.
   */
  lemma {:induction false} ReduceByThrows(d: Dimension, rows: seq<UsageRow>, j: nat)
    requires j < |rows| && rows[j].unitType != "minute"
    requires AllMinutes(rows[..j])
    ensures ReduceBy(d, rows) == Err(UnitTypeError(rows[j].unitType))
  {
    var init := rows[..|rows| - 1];
    if j == |rows| - 1 {
      ReduceByAllMinutes(d, init);
    } else {
      assert init[..j] == rows[..j];
      ReduceByThrows(d, init, j);
    }
  }

  /** The first row whose unit type is not "minute". */
  function FirstOther(rows: seq<UsageRow>): (j: nat)
    requires !AllMinutes(rows)
    ensures j < |rows| && rows[j].unitType != "minute" && AllMinutes(rows[..j])
  {
    if rows[0].unitType != "minute" then 0
    else
      var j := 1 + FirstOther(rows[1..]);
      assert rows[..j] == [rows[0]] + rows[1..][..j - 1];
      j
  }

  /** A fold that succeeds saw only rows in minutes. */
  lemma ReduceByOkAllMinutes(d: Dimension, rows: seq<UsageRow>)
    requires ReduceBy(d, rows).Ok?
    ensures AllMinutes(rows)
  {
    if !AllMinutes(rows) {
      ReduceByThrows(d, rows, FirstOther(rows));
      assert false;
    }
  }

  /**
   * The keys of a table: distinct, exactly the keys of the rows, each bucket
   * labelled with its key, in the order in which the keys first occur.
   */
  lemma ReduceByKeys(d: Dimension, rows: seq<UsageRow>)
    requires AllMinutes(rows)
    ensures ReduceBy(d, rows).Ok?
    ensures var t := ReduceBy(d, rows).value;
      && NoDuplicates(Keys(t))
      && (forall j :: 0 <= j < |rows| ==> d.KeyOf(rows[j]) in Keys(t))
      && (forall i :: 0 <= i < |t| ==> t[i].key in RowKeys(d, rows) && t[i].bucket.group == t[i].key)
      && (forall i, i' :: 0 <= i < i' < |t| ==>
            FirstIndex(RowKeys(d, rows), t[i].key) < FirstIndex(RowKeys(d, rows), t[i'].key))
  {
    ReduceByAllMinutes(d, rows);
    KeysOfExpected(d, rows);
    DedupOrder(RowKeys(d, rows));
    var t := Expected(d, rows);
    forall j | 0 <= j < |rows|
      ensures d.KeyOf(rows[j]) in Keys(t)
    {
      assert RowKeys(d, rows)[j] == d.KeyOf(rows[j]);
    }
  }

  /** Each bucket of a table holds exactly the rows of its key. */
  lemma ReduceByBuckets(d: Dimension, rows: seq<UsageRow>, i: nat)
    requires ReduceBy(d, rows).Ok? && i < |ReduceBy(d, rows).value|
    ensures var e := ReduceBy(d, rows).value[i];
      && e.bucket.minutes == Minutes(Matching(d, rows, e.key))
      && Value(e.bucket.cost) == CostValue(Matching(d, rows, e.key))
      && e.bucket.repositories == Repositories(Matching(d, rows, e.key))
  {
    ReduceByOkAllMinutes(d, rows);
    ReduceByAllMinutes(d, rows);
    var e := ReduceBy(d, rows).value[i];
    BucketCostValue(e.key, Matching(d, rows, e.key));
  }

  // ---------------------------------------------------------------------
  // Totals.

  function TotalMinutes(t: Table): nat
  {
    if t == [] then 0 else TotalMinutes(t[..|t| - 1]) + t[|t| - 1].bucket.minutes
  }

  lemma {:induction false} TotalMinutesUpdate(t: Table, i: nat, e: Entry)
    requires i < |t|
    ensures TotalMinutes(t[i := e]) + t[i].bucket.minutes == TotalMinutes(t) + e.bucket.minutes
  {
    var t' := t[i := e];
    if i < |t| - 1 {
      assert t'[..|t'| - 1] == t[..|t| - 1][i := e];
      TotalMinutesUpdate(t[..|t| - 1], i, e);
    } else {
      assert t'[..|t'| - 1] == t[..|t| - 1];
    }
  }

  lemma TotalMinutesInsert(d: Dimension, t: Table, row: UsageRow)
    ensures TotalMinutes(Insert(d, t, row)) == TotalMinutes(t) + row.amount
  {
    var k := d.KeyOf(row);
    var t' := if k in Keys(t) then t else t + [Entry(k, Fresh(k))];
    assert Keys(t') == if k in Keys(t) then Keys(t) else Keys(t) + [k];
    var i := FirstIndex(Keys(t'), k);
    assert TotalMinutes(t') == TotalMinutes(t) by {
      if k !in Keys(t) { assert t'[..|t'| - 1] == t; }
    }
    TotalMinutesUpdate(t', i, Entry(k, Credit(t'[i].bucket, row)));
  }

  /** Each row's amount lands in exactly one bucket: the table's Minutes add up to the rows'. */
  lemma {:induction false} ReduceByTotalMinutes(d: Dimension, rows: seq<UsageRow>)
    requires ReduceBy(d, rows).Ok?
    ensures TotalMinutes(ReduceBy(d, rows).value) == Minutes(rows)
  {
    if rows != [] {
      var init := rows[..|rows| - 1];
      ReduceByTotalMinutes(d, init);
      TotalMinutesInsert(d, ReduceBy(d, init).value, rows[|rows| - 1]);
    }
  }
}
